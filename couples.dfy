/** "Une grande famille de couples": the pairs (x, y) with y < x(x + 1)
    such that x(x + 1) divides y(y + 1) while none of x, x + 1 divides y
    or y + 1. find_y builds them from splittings of x and x + 1 into
    coprime factors, and solve_brute_force searches them directly. */
module Couples {
  import opened Numbers
  import opened Bezout
  import opened Sorting
  import opened Combinatorics
  import opened PrimeSieve
  import opened PrimePowers

  /** int(x ** .5): the integer square root, rounded down. */
  function ISqrt(x: nat): (r: nat)
    ensures r * r <= x < (r + 1) * (r + 1)
  {
    if x == 0 then 0
    else
      var s := ISqrt(x - 1);
      if (s + 1) * (s + 1) <= x then
        SquareStep(s);
        s + 1
      else s
  }

  lemma SquareStep(s: nat)
    ensures (s + 1) * (s + 1) + 1 < (s + 2) * (s + 2)
  {
  }

  /** A factor at most the square root has the larger cofactor. */
  lemma SmallFactor(x: nat, a: nat, b: nat)
    requires a * b == x && a <= b
    ensures a <= ISqrt(x)
  {
    var r := ISqrt(x);
    if a > r {
      MulMonotone(r + 1, a, r + 1);
      MulMonotone(r + 1, b, a);
    }
  }

  /** Below the square root, the square stays below x. */
  lemma SquareBelow(x: nat, d: nat, root: nat)
    requires d <= root && root * root <= x
    ensures d * d <= x
  {
    MulMonotone(d, root, d);
    MulMonotone(d, root, root);
  }

  /** x == a * b with both factors at least 2 and coprime. */
  predicate ProperPair(x: int, a: int, b: int)
  {
    a >= 2 && b >= 2 && a * b == x && Gcd(a, b) == 1
  }

  /** The two orders of a splitting of x. */
  lemma ProperPairSwap(x: int, a: int, b: int)
    requires ProperPair(x, a, b)
    ensures ProperPair(x, b, a)
  {
    assert Coprime(a, b);
    CoprimeSymmetric(a, b);
  }

  /** In a proper pair the two factors differ: gcd(a, a) == a. */
  lemma ProperPairDistinct(x: int, a: int)
    requires a >= 2
    ensures !ProperPair(x, a, a)
  {
    assert a % a == 0;
    assert Gcd(a, a) == Gcd(a, 0) == a;
  }

  /** The pairs found once every d below `d` has been tried: each proper
      splitting whose smaller factor is below d, once. */
  ghost predicate Found(x: nat, pairs: seq<(nat, nat)>, d: nat)
  {
    (forall a: nat, b: nat :: (a, b) in pairs ==> ProperPair(x, a, b) && (a < d || b < d))
    && (forall a: nat, b: nat :: ProperPair(x, a, b) && (a < d || b < d) ==> (a, b) in pairs)
    && forall i, j :: 0 <= i < j < |pairs| ==> pairs[i] != pairs[j]
  }

  /** gen_proper_divisors(x): for every d from 2 to int(x ** .5) with
      x == d * d_ and gcd(d, d_) == 1, the pairs (d, d_) then (d_, d).
      Each proper splitting of x comes out exactly once. */
  method ProperDivisors(x: nat) returns (pairs: seq<(nat, nat)>)
    ensures forall a: nat, b: nat :: (a, b) in pairs <==> ProperPair(x, a, b)
    ensures forall i, j :: 0 <= i < j < |pairs| ==> pairs[i] != pairs[j]
  {
    pairs := [];
    var root := ISqrt(x);
    var d := 2;
    while d <= root
      invariant d >= 2 && Found(x, pairs, d)
      invariant d <= root + 1 || root < 2
    {
      var d_, r := x / d, x % d;
      if r == 0 && Gcd(d, d_) == 1 {
        FoundAdd(x, pairs, d, root);
        pairs := pairs + [(d, d_), (d_, d)];
      } else {
        FoundSkip(x, pairs, d);
      }
      d := d + 1;
    }
    FoundAll(x, pairs, d, root);
  }

  /** Past the square root, every proper splitting has been found. */
  lemma FoundAll(x: nat, pairs: seq<(nat, nat)>, d: nat, root: nat)
    requires root == ISqrt(x) && d > root && Found(x, pairs, d)
    ensures forall a: nat, b: nat :: (a, b) in pairs <==> ProperPair(x, a, b)
  {
    forall a: nat, b: nat | ProperPair(x, a, b)
      ensures a <= root || b <= root
    {
      if a <= b {
        SmallFactor(x, a, b);
      } else {
        SmallFactor(x, b, a);
      }
    }
  }

  /** At a divisor d with a coprime cofactor, both orders are new. */
  lemma FoundAdd(x: nat, pairs: seq<(nat, nat)>, d: nat, root: nat)
    requires Found(x, pairs, d) && 2 <= d <= root && root == ISqrt(x)
    requires x % d == 0 && Gcd(d, x / d) == 1
    ensures Found(x, pairs + [(d, x / d), (x / d, d)], d + 1)
  {
    var d_ := x / d;
    DivisorPair(x, d, root);
    ProperPairSwap(x, d, d_);
    FoundAddMembers(x, pairs, d);
    AppendTwoDistinct(pairs, (d, d_), (d_, d));
  }

  /** Every proper splitting with a factor up to d is found once the pair
      at d joins. */
  lemma FoundAddMembers(x: nat, pairs: seq<(nat, nat)>, d: nat)
    requires Found(x, pairs, d) && d >= 2 && x % d == 0
    ensures forall a: nat, b: nat :: ProperPair(x, a, b) && (a < d + 1 || b < d + 1) ==>
      (a, b) in pairs + [(d, x / d), (x / d, d)]
  {
    var pairs' := pairs + [(d, x / d), (x / d, d)];
    forall a: nat, b: nat | ProperPair(x, a, b) && (a < d + 1 || b < d + 1)
      ensures (a, b) in pairs'
    {
      if !(a < d || b < d) {
        if a == d {
          DivModUnique(x, d, b, 0);
        } else {
          DivModUnique(x, d, a, 0);
        }
      }
    }
  }

  /** Two new, different pairs keep a list free of repeats. */
  lemma AppendTwoDistinct(pairs: seq<(nat, nat)>, p: (nat, nat), q: (nat, nat))
    requires forall i, j :: 0 <= i < j < |pairs| ==> pairs[i] != pairs[j]
    requires p !in pairs && q !in pairs && p != q
    ensures var pairs' := pairs + [p, q];
      forall i, j :: 0 <= i < j < |pairs'| ==> pairs'[i] != pairs'[j]
  {
    var pairs' := pairs + [p, q];
    forall i, j | 0 <= i < j < |pairs'|
      ensures pairs'[i] != pairs'[j]
    {
      if j >= |pairs| && i < |pairs| {
        assert pairs[i] in pairs;
      }
    }
  }

  /** The pair at d is proper and d is its smaller factor. */
  lemma DivisorPair(x: nat, d: nat, root: nat)
    requires 2 <= d <= root && root == ISqrt(x) && x % d == 0 && Gcd(d, x / d) == 1
    ensures ProperPair(x, d, x / d) && d < x / d
  {
    var d_ := x / d;
    SquareBelow(x, d, root);
    ExactQuotient(x, d);
    if d_ < d {
      MulStrict(d, d_, d);
    } else if d_ == d {
      ProperPairDistinct(x, d);
    }
  }

  lemma ExactQuotient(x: nat, d: nat)
    requires d > 0 && x % d == 0
    ensures d * (x / d) == x
  {
  }

  /** With no coprime cofactor at d, no proper pair has d as a factor. */
  lemma FoundSkip(x: nat, pairs: seq<(nat, nat)>, d: nat)
    requires Found(x, pairs, d) && d >= 2 && !(x % d == 0 && Gcd(d, x / d) == 1)
    ensures Found(x, pairs, d + 1)
  {
    forall a: nat, b: nat | ProperPair(x, a, b) && (a == d || b == d)
      ensures false
    {
      if b == d {
        ProperPairSwap(x, a, b);
        DivModUnique(x, d, a, 0);
      } else {
        DivModUnique(x, d, b, 0);
      }
    }
  }

  /** The condition of solve_brute_force: y < x(x + 1), x(x + 1) divides
      y(y + 1), and neither x nor x + 1 divides y or y + 1. */
  predicate Solution(x: int, y: int)
  {
    x >= 1 && 0 <= y < x * (x + 1)
    && (y * (y + 1)) % (x * (x + 1)) == 0
    && y % x != 0 && y % (x + 1) != 0 && (y + 1) % (x + 1) != 0 && (y + 1) % x != 0
  }

  /** The y that find_y builds from x == a * b and x + 1 == c * d: with
      (g, m, n) == gcde(ad, -bc), the residue of g * n * bc modulo ad * bc,
      taken non-negative as Python's % does. */
  function Glue(a: nat, b: nat, c: nat, d: nat): int
    requires a >= 1 && b >= 1 && c >= 1 && d >= 1
  {
    var ad, bc := a * d, b * c;
    var r := Gcde(ad, -bc);
    MulMonotone(1, ad, bc);
    (r.0 * r.2 * bc) % (ad * bc)
  }

  /** ad and bc are coprime: a, b split x, c, d split x + 1, and x, x + 1
      are coprime. */
  lemma CrossCoprime(x: int, a: int, b: int, c: int, d: int)
    requires ProperPair(x, a, b) && ProperPair(x + 1, c, d)
    ensures Coprime(a * d, b * c)
  {
    ConsecutiveCoprime(x);
    DividesMultiple(a, b);
    DividesMultiple(c, d);
    assert b * a == x && d * c == x + 1;
    DividesMultiple(b, a);
    DividesMultiple(d, c);
    CoprimeDivisors(x, x + 1, a, c);
    CoprimeDivisors(x, x + 1, a, d);
    CoprimeDivisors(x, x + 1, b, c);
    CoprimeDivisors(x, x + 1, b, d);
    assert Coprime(a, b) && Coprime(c, d);
    CoprimeSymmetric(b, d);
    CoprimeSymmetric(c, d);
    CoprimeMul(a, d, b);
    CoprimeMul(a, d, c);
    CoprimeSymmetric(a * d, b);
    CoprimeSymmetric(a * d, c);
    CoprimeMul(b, c, a * d);
    CoprimeSymmetric(b * c, a * d);
  }

  /** The residue of find_y is a multiple of bc whose successor is a
      multiple of ad, below x(x + 1) == ad * bc. */
  lemma GlueDivides(x: int, a: nat, b: nat, c: nat, d: nat)
    requires ProperPair(x, a, b) && ProperPair(x + 1, c, d)
    ensures var y := Glue(a, b, c, d);
      0 <= y < x * (x + 1) && Divides(b * c, y) && Divides(a * d, y + 1)
  {
    var ad, bc := a * d, b * c;
    var r := Gcde(ad, -bc);
    var g, m, n := r.0, r.1, r.2;
    CrossCoprime(x, a, b, c, d);
    GcdeIsGcd(ad, -bc);
    var t := g * n * bc;
    UnitCombination(ad, bc, g, m, n);
    DividesMultiple(bc, g * n);
    DividesMultiple(ad, g * m);
    MulMonotone(1, ad, bc);
    Regroup(a, b, c, d);
    ResidueDivides(ad, bc, ad * bc, t);
  }

  /** Reducing modulo ad * bc keeps divisibility by both factors. */
  lemma ResidueDivides(ad: int, bc: int, big: int, t: int)
    requires big == ad * bc && big > 0
    requires Divides(bc, t) && Divides(ad, t + 1)
    ensures Divides(bc, t % big) && Divides(ad, t % big + 1)
  {
    var q, r := t / big, t % big;
    DivisionIdentity(t, big);
    DividesMultiple(bc, ad);
    DividesMultiple(ad, bc);
    assert bc * ad == big;
    DividesLinear(bc, t, big, 1, -q);
    assert t * 1 + big * -q == r;
    DividesLinear(ad, t + 1, big, 1, -q);
    assert (t + 1) * 1 + big * -q == r + 1;
  }

  lemma DivisionIdentity(t: int, big: int)
    requires big > 0
    ensures t == big * (t / big) + t % big
  {
  }

  /** a * d * b * c, in the order x * (x + 1). */
  lemma Regroup(a: int, b: int, c: int, d: int)
    ensures (a * d) * (b * c) == (a * b) * (c * d)
  {
  }

  /** From ad * m - bc * n == g with g == +-1: g * n * bc + 1 == ad * (g * m). */
  lemma UnitCombination(ad: int, bc: int, g: int, m: int, n: int)
    requires ad * m + (-bc) * n == g && (g == 1 || g == -1)
    ensures g * n * bc == bc * (g * n) && g * n * bc + 1 == ad * (g * m)
  {
    assert g * g == 1;
    assert g * (ad * m) - g * (bc * n) == g * g;
  }

  /** A divisor of two consecutive numbers is 1. */
  lemma NotBoth(e: int, y: int)
    requires e >= 2
    ensures !(Divides(e, y) && Divides(e, y + 1))
  {
    if Divides(e, y) && Divides(e, y + 1) {
      DividesLinear(e, y + 1, y, 1, -1);
      DividesBound(e, 1);
    }
  }

  /** Every y of find_y is a solution of solve_brute_force. */
  lemma GlueSolution(x: int, a: nat, b: nat, c: nat, d: nat)
    requires ProperPair(x, a, b) && ProperPair(x + 1, c, d)
    ensures Solution(x, Glue(a, b, c, d))
  {
    var y := Glue(a, b, c, d);
    GlueDivides(x, a, b, c, d);
    var k := DividesWitness(b * c, y);
    var l := DividesWitness(a * d, y + 1);
    assert y * (y + 1) == (x * (x + 1)) * (k * l) by {
      Regroup(a, b, c, d);
      Rearrange(b * c, k, a * d, l);
    }
    DividesMultiple(x * (x + 1), k * l);
    // x divides neither y nor y + 1: a or b would divide both.
    DividesMultiple(a, b);
    DividesMultiple(b, a);
    DividesMultiple(c, d);
    DividesMultiple(d, c);
    DividesMultiple(a, d);
    DividesMultiple(d, a);
    DividesMultiple(b, c);
    DividesMultiple(c, b);
    DividesTransitive(a, a * d, y + 1);
    DividesTransitive(d, a * d, y + 1);
    DividesTransitive(b, b * c, y);
    DividesTransitive(c, b * c, y);
    NotBoth(a, y);
    NotBoth(b, y);
    NotBoth(c, y);
    NotBoth(d, y);
    if Divides(x, y) {
      DividesTransitive(a, x, y);
    }
    if Divides(x, y + 1) {
      DividesTransitive(b, b * a, y + 1);
    }
    if Divides(x + 1, y) {
      DividesTransitive(d, d * c, y);
    }
    if Divides(x + 1, y + 1) {
      DividesTransitive(c, x + 1, y + 1);
    }
  }

  /** y comes from a splitting of x and one of x + 1. */
  ghost predicate Glued(x: int, y: int)
  {
    exists a: nat, b: nat, c: nat, d: nat ::
      ProperPair(x, a, b) && ProperPair(x + 1, c, d) && y == Glue(a, b, c, d)
  }

  /** find_y(x): one y for every splitting (a, b) of x and (c, d) of
      x + 1. Every y is a solution of solve_brute_force. */
  method FindY(x: nat) returns (ys: seq<int>)
    ensures forall y :: y in ys ==> Solution(x, y) && Glued(x, y)
    ensures forall a: nat, b: nat, c: nat, d: nat ::
      ProperPair(x, a, b) && ProperPair(x + 1, c, d) ==> Glue(a, b, c, d) in ys
    ensures Distinct(ys)
  {
    var outer := ProperDivisors(x);
    var inner := ProperDivisors(x + 1);
    ys := [];
    // the splittings each y came from
    ghost var origins: seq<(nat, nat, nat, nat)> := [];
    for i := 0 to |outer|
      invariant forall a: nat, b: nat, c: nat, d: nat ::
        (a, b) in outer[..i] && ProperPair(x + 1, c, d) ==> Glue(a, b, c, d) in ys
      invariant Distinct(ys) && Traced(x, ys, origins, outer, inner, i, 0)
    {
      var (a, b) := outer[i];
      for j := 0 to |inner|
        invariant forall a': nat, b': nat, c: nat, d: nat ::
          ((a', b') in outer[..i] && ProperPair(x + 1, c, d)) || ((a', b') == (a, b) && (c, d) in inner[..j])
          ==> Glue(a', b', c, d) in ys
        invariant Distinct(ys) && Traced(x, ys, origins, outer, inner, i, j)
      {
        var (c, d) := inner[j];
        assert (a, b) in outer && (c, d) in inner;
        FreshResidue(x, ys, origins, outer, inner, i, j);
        TracedAppend(x, ys, origins, outer, inner, i, j);
        ys := ys + [Glue(a, b, c, d)];
        origins := origins + [(a, b, c, d)];
        assert inner[..j + 1] == inner[..j] + [(c, d)];
      }
      TracedNextRow(x, ys, origins, outer, inner, i);
      assert inner[..|inner|] == inner;
      assert outer[..i + 1] == outer[..i] + [(a, b)];
    }
    assert outer[..|outer|] == outer;
    TracedSolutions(x, ys, origins);
  }

  /** Every y so far came from a splitting ahead of outer[i] and inner[j]
      in find_y's two loops. */
  ghost predicate Traced(x: int, ys: seq<int>, origins: seq<(nat, nat, nat, nat)>,
                         outer: seq<(nat, nat)>, inner: seq<(nat, nat)>, i: nat, j: nat)
  {
    |origins| == |ys|
    && forall k :: 0 <= k < |ys| ==> FromSplitting(x, ys[k], origins[k]) && Earlier(origins[k], outer, inner, i, j)
  }

  /** The y of outer[i] and inner[j] joins with its splitting. */
  lemma TracedAppend(x: int, ys: seq<int>, origins: seq<(nat, nat, nat, nat)>,
                     outer: seq<(nat, nat)>, inner: seq<(nat, nat)>, i: nat, j: nat)
    requires Traced(x, ys, origins, outer, inner, i, j) && i < |outer| && j < |inner|
    requires ProperPair(x, outer[i].0, outer[i].1) && ProperPair(x + 1, inner[j].0, inner[j].1)
    ensures Traced(x, ys + [Glue(outer[i].0, outer[i].1, inner[j].0, inner[j].1)],
                   origins + [(outer[i].0, outer[i].1, inner[j].0, inner[j].1)], outer, inner, i, j + 1)
  {
    assert inner[..j + 1] == inner[..j] + [inner[j]];
  }

  /** At the end of a row, the next row starts. */
  lemma TracedNextRow(x: int, ys: seq<int>, origins: seq<(nat, nat, nat, nat)>,
                      outer: seq<(nat, nat)>, inner: seq<(nat, nat)>, i: nat)
    requires Traced(x, ys, origins, outer, inner, i, |inner|) && i < |outer|
    ensures Traced(x, ys, origins, outer, inner, i + 1, 0)
  {
    assert outer[..i + 1] == outer[..i] + [outer[i]];
  }

  /** Every y traced back to a splitting is a glued solution. */
  lemma TracedSolutions(x: nat, ys: seq<int>, origins: seq<(nat, nat, nat, nat)>)
    requires |origins| == |ys| && forall k :: 0 <= k < |ys| ==> FromSplitting(x, ys[k], origins[k])
    ensures forall y :: y in ys ==> Solution(x, y) && Glued(x, y)
  {
    forall y | y in ys
      ensures Solution(x, y) && Glued(x, y)
    {
      var k :| 0 <= k < |ys| && ys[k] == y;
      var (a, b, c, d) := origins[k];
      GlueSolution(x, a, b, c, d);
    }
  }

  /** The splitting o comes before the splittings outer[i] and inner[j] in
      find_y's two loops. */
  ghost predicate Earlier(o: (nat, nat, nat, nat), outer: seq<(nat, nat)>, inner: seq<(nat, nat)>, i: nat, j: nat)
  {
    i <= |outer| && j <= |inner|
    && ((o.0, o.1) in outer[..i] || (i < |outer| && (o.0, o.1) == outer[i] && (o.2, o.3) in inner[..j]))
  }

  /** The y of the splittings outer[i] and inner[j] is new: every earlier
      y came from another splitting, and find_y's y determine their
      splittings. */
  lemma FreshResidue(x: int, ys: seq<int>, origins: seq<(nat, nat, nat, nat)>,
                     outer: seq<(nat, nat)>, inner: seq<(nat, nat)>, i: nat, j: nat)
    requires i < |outer| && j < |inner| && Distinct(outer) && Distinct(inner)
    requires ProperPair(x, outer[i].0, outer[i].1) && ProperPair(x + 1, inner[j].0, inner[j].1)
    requires Traced(x, ys, origins, outer, inner, i, j)
    ensures Glue(outer[i].0, outer[i].1, inner[j].0, inner[j].1) !in ys
  {
    var (a, b) := outer[i];
    var (c, d) := inner[j];
    forall k | 0 <= k < |ys|
      ensures ys[k] != Glue(a, b, c, d)
    {
      var (a', b', c', d') := origins[k];
      if ys[k] == Glue(a, b, c, d) {
        GlueInjective(x, a, b, c, d, a', b', c', d');
      }
    }
  }

  /** y is the residue find_y builds from the splitting o of x and x + 1. */
  ghost predicate FromSplitting(x: int, y: int, o: (nat, nat, nat, nat))
  {
    ProperPair(x, o.0, o.1) && ProperPair(x + 1, o.2, o.3) && y == Glue(o.0, o.1, o.2, o.3)
  }

  /** p comes before q: smaller x, or the same x and a smaller y. */
  predicate PairBefore(p: (nat, int), q: (nat, int))
  {
    p.0 < q.0 || (p.0 == q.0 && p.1 < q.1)
  }

  /** Pairs in strictly increasing (x, y) order. */
  predicate LexIncreasing(s: seq<(nat, int)>)
  {
    forall i, j :: 0 <= i < j < |s| ==> PairBefore(s[i], s[j])
  }

  /** solve_brute_force, for the x below `limit`: every solution, in
      increasing (x, y) order. */
  method SolveBruteForce(limit: nat) returns (sols: seq<(nat, int)>)
    ensures forall x: nat, y: int :: (x, y) in sols <==> x < limit && Solution(x, y)
    ensures LexIncreasing(sols)
  {
    sols := [];
    for x := 0 to limit
      invariant forall x': nat, y: int :: (x', y) in sols <==> x' < x && Solution(x', y)
      invariant forall p :: p in sols ==> p.0 < x
      invariant LexIncreasing(sols)
    {
      for y := 0 to x * (x + 1)
        invariant forall x': nat, y': int :: (x', y') in sols <==>
          (x' < x && Solution(x', y')) || (x' == x && 0 <= y' < y && Solution(x', y'))
        invariant forall p :: p in sols ==> p.0 < x || (p.0 == x && p.1 < y)
        invariant LexIncreasing(sols)
      {
        if y * (y + 1) % (x * (x + 1)) == 0 && y % x != 0 && y % (x + 1) != 0
          && (y + 1) % (x + 1) != 0 && (y + 1) % x != 0
        {
          AppendIncreasing(sols, (x, y));
          sols := sols + [(x, y)];
        }
      }
    }
  }

  /** A pair after every pair so far keeps the order strict. */
  lemma AppendIncreasing(s: seq<(nat, int)>, p: (nat, int))
    requires LexIncreasing(s) && forall q :: q in s ==> PairBefore(q, p)
    ensures LexIncreasing(s + [p])
  {
    forall i, j | 0 <= i < j < |s + [p]|
      ensures PairBefore((s + [p])[i], (s + [p])[j])
    {
      assert s[i] in s;
    }
  }

  /** Every number from 2 on has a prime factor. */
  lemma PrimeFactor(a: nat) returns (q: nat)
    requires a >= 2
    ensures IsPrime(q) && Divides(q, a)
  {
    if IsPrime(a) {
      q := a;
      DividesMultiple(a, 1);
    } else {
      q := SmallestPrimeFactor(a);
    }
  }

  /** A number split into two coprime factors, both at least 2, is not a
      prime power: each factor would be a multiple of its prime. */
  lemma ProperPairNotPrimePower(x: int, a: int, b: int)
    requires ProperPair(x, a, b)
    ensures !IsPrimePower(x) && x >= 4
  {
    MulMonotone(2, a, b);
    MulMonotone(2, b, 2);
    if IsPrimePower(x) {
      var p: nat, k: nat :| IsPrime(p) && k >= 1 && Pow(p, k) == x;
      FactorOfPower(x, a, b, p, k);
      assert b * a == x;
      FactorOfPower(x, b, a, p, k);
      CommonDivisorDividesGcd(a, b, p);
      DividesBound(p, 1);
    }
  }

  /** A factor of p^k, at least 2, is a multiple of p. */
  lemma FactorOfPower(x: int, a: int, b: int, p: nat, k: nat)
    requires a >= 2 && a * b == x && IsPrime(p) && Pow(p, k) == x
    ensures Divides(p, a)
  {
    var q := PrimeFactor(a);
    DividesMultiple(a, b);
    DividesTransitive(q, a, x);
    PrimeDividesPower(q, p, k);
  }

  /** No prime power lies strictly between two consecutive entries of the
      list of prime powers (or below the first, above 1). */
  lemma NoPrimePowerBetween(powers: seq<nat>, reached: nat, k: nat, v: int)
    requires PrimePowersBelow(powers, reached) && k < |powers|
    requires (if k == 0 then 1 else powers[k - 1]) < v < powers[k]
    ensures !IsPrimePower(v)
  {
    assert powers[k] in powers;
    if IsPrimePower(v) {
      var j :| 0 <= j < |powers| && powers[j] == v;
      if j >= k {
        assert false;
      }
    }
  }

  /** What solve has yielded once the prime power `bound` is reached:
      solutions from splittings, for x and x + 1 below the bound and not
      prime powers, all of those, in (x, y) order. */
  ghost predicate SolvedBelow(sols: seq<(nat, int)>, bound: nat)
  {
    (forall p :: p in sols ==> Solution(p.0, p.1) && Glued(p.0, p.1))
    && (forall p :: p in sols ==> p.0 + 1 < bound && !IsPrimePower(p.0) && !IsPrimePower(p.0 + 1))
    && (forall x: nat, a: nat, b: nat, c: nat, d: nat ::
          x + 1 < bound && ProperPair(x, a, b) && ProperPair(x + 1, c, d) ==> (x, Glue(a, b, c, d)) in sols)
    && LexIncreasing(sols)
  }

  /** The list of gen_prime_powers: the prime powers below `reached`, in
      increasing order. */
  ghost predicate PrimePowersBelow(powers: seq<nat>, reached: nat)
  {
    StrictlyIncreasing(powers) && forall u: nat :: u in powers <==> IsPrimePower(u) && u < reached
  }

  /** solve(), as long as gen_prime_powers runs below the limit: for every
      x strictly between two consecutive prime powers with x + 1 too, the
      sorted y of find_y(x). `bound` is the last prime power reached (1
      before the first). */
  method Solve(limit: nat) returns (sols: seq<(nat, int)>, bound: nat)
    ensures forall p :: p in sols ==> Solution(p.0, p.1) && Glued(p.0, p.1)
    ensures forall p :: p in sols ==> p.0 + 1 < bound && !IsPrimePower(p.0) && !IsPrimePower(p.0 + 1)
    ensures forall x: nat, a: nat, b: nat, c: nat, d: nat ::
      x + 1 < bound && ProperPair(x, a, b) && ProperPair(x + 1, c, d) ==> (x, Glue(a, b, c, d)) in sols
    ensures forall x: nat, y: int :: x + 1 < bound ==> ((x, y) in sols <==> Solution(x, y))
    ensures LexIncreasing(sols)
    ensures bound == 1 || (IsPrimePower(bound) && bound < limit)
  {
    var powers, reached := GenPrimePowers(limit);
    sols := [];
    var lastPower := 1;
    for k := 0 to |powers|
      invariant lastPower == if k == 0 then 1 else powers[k - 1]
      invariant SolvedBelow(sols, lastPower)
    {
      var power := powers[k];
      sols := SolveGap(sols, lastPower, power, powers, reached, k);
      lastPower := power;
    }
    bound := lastPower;
    if |powers| > 0 {
      var last := powers[|powers| - 1];
      assert last in powers;
      PrimePowerAtLeastTwo(last);
    }
    SolvedAgrees(sols, bound);
  }

  /** Below the bound, solve found a pair exactly when it passes the tests
      of solve_brute_force; Verify turns this into equal lists. */
  lemma SolvedAgrees(sols: seq<(nat, int)>, bound: nat)
    requires SolvedBelow(sols, bound)
    ensures forall x: nat, y: int :: x + 1 < bound ==> ((x, y) in sols <==> Solution(x, y))
  {
    forall x: nat, y: int | x + 1 < bound && Solution(x, y)
      ensures (x, y) in sols
    {
      SolutionGlued(x, y);
    }
  }

  /** verify: zipping solve_brute_force with solve, up to the last prime
      power solve reached, compares equal sequences pair by pair. */
  method Verify(limit: nat) returns (sols: seq<(nat, int)>, brute: seq<(nat, int)>, bound: nat)
    ensures sols == brute
    ensures forall x: nat, y: int :: (x, y) in sols <==> x + 1 < bound && Solution(x, y)
    ensures bound == 1 || (IsPrimePower(bound) && bound < limit)
  {
    sols, bound := Solve(limit);
    if bound != 1 {
      PrimePowerAtLeastTwo(bound);
    }
    brute := SolveBruteForce(bound - 1);
    forall p | p in sols
      ensures p in brute
    {
      assert p.0 + 1 < bound && Solution(p.0, p.1);
    }
    forall p | p in brute
      ensures p in sols
    {
      var (x, y) := p;
      assert (x, y) in brute;
      assert x < bound - 1;
      assert Solution(x, y);
    }
    assert forall p :: p in sols ==> p in brute;
    assert forall p :: p in brute ==> p in sols;
    IncreasingUnique(sols, brute);
  }

  /** Two lists of pairs in strictly increasing (x, y) order with the same
      members are the same list. */
  lemma {:induction false} IncreasingUnique(s: seq<(nat, int)>, t: seq<(nat, int)>)
    requires LexIncreasing(s) && LexIncreasing(t)
    requires forall p :: p in s <==> p in t
    ensures s == t
    decreases |s|
  {
    if s == [] {
      NoMembers(t);
    } else {
      assert s[0] in t && t[0] in s;
      var j :| 0 <= j < |t| && t[j] == s[0];
      var i :| 0 <= i < |s| && s[i] == t[0];
      TailMembers(s);
      TailMembers(t);
      IncreasingUnique(s[1..], t[1..]);
    }
  }

  lemma NoMembers(t: seq<(nat, int)>)
    ensures (forall p :: p !in t) ==> t == []
  {
    if t != [] {
      assert t[0] in t;
    }
  }

  /** Without its first pair, a strictly increasing list holds every other
      pair. */
  lemma TailMembers(s: seq<(nat, int)>)
    requires LexIncreasing(s) && s != []
    ensures forall p :: p in s[1..] <==> p in s && p != s[0]
  {
    forall p | p in s[1..]
      ensures p != s[0]
    {
      var k :| 0 <= k < |s[1..]| && s[1..][k] == p;
      assert PairBefore(s[0], s[k + 1]);
    }
    assert s == [s[0]] + s[1..];
  }

  /** The middle loop of solve between consecutive prime powers
      lastPower < power: every x with lastPower < x and x + 1 < power, each
      followed by the sorted y of find_y(x). */
  method SolveGap(sols: seq<(nat, int)>, lastPower: nat, power: nat, ghost powers: seq<nat>, ghost reached: nat, ghost k: nat)
    returns (sols': seq<(nat, int)>)
    requires PrimePowersBelow(powers, reached) && k < |powers| && power == powers[k]
    requires lastPower == if k == 0 then 1 else powers[k - 1]
    requires SolvedBelow(sols, lastPower)
    ensures SolvedBelow(sols', power)
  {
    assert power in powers;
    if k > 0 {
      assert lastPower < power;
    }
    sols' := sols;
    var x := lastPower + 1;
    while x < power - 1
      invariant lastPower < x <= power - 1 || x == lastPower + 1
      invariant GapInv(sols', lastPower, power, x)
    {
      NoPrimePowerBetween(powers, reached, k, x);
      NoPrimePowerBetween(powers, reached, k, x + 1);
      var ys := FindY(x);
      var sorted := Sort(ys);
      SortStrict(ys);
      GapStep(sols', lastPower, power, x, ys, sorted);
      sols' := sols' + Row(x, sorted);
      x := x + 1;
    }
    if k > 0 {
      assert lastPower in powers;
    }
    GapEnd(sols', lastPower, power, x);
  }

  /** The middle loop of solve before x: the pairs yielded so far. */
  ghost predicate GapInv(sols: seq<(nat, int)>, lastPower: nat, power: nat, x: nat)
  {
    (forall p :: p in sols ==> Solution(p.0, p.1) && Glued(p.0, p.1))
    && (forall p :: p in sols ==> p.0 < x && p.0 + 1 < power && !IsPrimePower(p.0) && !IsPrimePower(p.0 + 1))
    && (forall x': nat, a: nat, b: nat, c: nat, d: nat ::
          (x' + 1 < lastPower || lastPower < x' < x) && ProperPair(x', a, b) && ProperPair(x' + 1, c, d)
          ==> (x', Glue(a, b, c, d)) in sols)
    && LexIncreasing(sols)
  }

  /** One x of the middle loop: the sorted row of find_y(x) joins the
      pairs. */
  lemma GapStep(sols: seq<(nat, int)>, lastPower: nat, power: nat, x: nat, ys: seq<int>, sorted: seq<int>)
    requires GapInv(sols, lastPower, power, x) && x + 1 < power && !IsPrimePower(x) && !IsPrimePower(x + 1)
    requires forall y :: y in ys ==> Solution(x, y) && Glued(x, y)
    requires forall a: nat, b: nat, c: nat, d: nat ::
      ProperPair(x, a, b) && ProperPair(x + 1, c, d) ==> Glue(a, b, c, d) in ys
    requires StrictlyAscending(sorted) && forall y :: y in sorted <==> y in ys
    ensures GapInv(sols + Row(x, sorted), lastPower, power, x + 1)
  {
    var row := Row(x, sorted);
    RowAppend(sols, x, sorted);
    forall p | p in row
      ensures p.0 == x && p.1 in ys
    {
      var j :| 0 <= j < |row| && row[j] == p;
      assert sorted[j] in sorted;
    }
    forall x': nat, a: nat, b: nat, c: nat, d: nat |
      x' == x && ProperPair(x', a, b) && ProperPair(x' + 1, c, d)
      ensures (x', Glue(a, b, c, d)) in row
    {
      var y := Glue(a, b, c, d);
      assert y in sorted;
      var j :| 0 <= j < |sorted| && sorted[j] == y;
      assert row[j] == (x, y);
    }
  }

  /** Leaving the middle loop: every x with x + 1 below the power is done,
      since lastPower and power themselves are prime powers (or 1). */
  lemma GapEnd(sols: seq<(nat, int)>, lastPower: nat, power: nat, x: nat)
    requires GapInv(sols, lastPower, power, x) && x >= power - 1
    requires lastPower == 1 || IsPrimePower(lastPower)
    ensures SolvedBelow(sols, power)
  {
    forall x': nat, a: nat, b: nat, c: nat, d: nat |
      x' + 1 < power && ProperPair(x', a, b) && ProperPair(x' + 1, c, d)
      ensures (x', Glue(a, b, c, d)) in sols
    {
      ProperPairNotPrimePower(x', a, b);
      ProperPairNotPrimePower(x' + 1, c, d);
      assert x' != lastPower && x' + 1 != lastPower;
    }
  }

  /** The pairs (x, y) for the y of a row, in order. */
  function Row(x: nat, ys: seq<int>): (r: seq<(nat, int)>)
    ensures |r| == |ys| && forall j :: 0 <= j < |ys| ==> r[j] == (x, ys[j])
  {
    seq(|ys|, j requires 0 <= j < |ys| => (x, ys[j]))
  }

  /** Appending the sorted row of a larger x keeps the order. */
  lemma RowAppend(sols: seq<(nat, int)>, x: nat, ys: seq<int>)
    requires LexIncreasing(sols) && StrictlyAscending(ys) && forall p :: p in sols ==> p.0 < x
    ensures LexIncreasing(sols + Row(x, ys))
  {
    var all := sols + Row(x, ys);
    forall i, j | 0 <= i < j < |all|
      ensures PairBefore(all[i], all[j])
    {
      if i < |sols| {
        assert sols[i] in sols;
      }
    }
  }

  /** Gauss's lemma: n divides m * z and is coprime to m, so n divides z. */
  lemma Gauss(n: int, m: int, z: int)
    requires Coprime(n, m) && Divides(n, m * z)
    ensures Divides(n, z)
  {
    var u, v := CoprimeWitness(n, m);
    assert z == n * (u * z) + (m * z) * v by {
      assert z == (n * u + m * v) * z;
    }
    DividesMultiple(n, u * z);
    DividesLinear(n, n * (u * z), m * z, 1, v);
  }

  /** Coprime divisors of z divide z together. */
  lemma CoprimeProductDivides(a: int, b: int, z: int)
    requires Coprime(a, b) && Divides(a, z) && Divides(b, z)
    ensures Divides(a * b, z)
  {
    var k := DividesWitness(a, z);
    CoprimeSymmetric(a, b);
    Gauss(b, a, k);
    var l := DividesWitness(b, k);
    assert z == (a * b) * l;
    DividesMultiple(a * b, l);
  }

  lemma CancelFactor(g: int, s: int, t: int)
    requires g > 0 && g * s == g * t
    ensures s == t
  {
    if s < t {
      MulStrict(g, s, t);
    } else if t < s {
      MulStrict(g, t, s);
    }
  }

  lemma Factored(g: int, a: int, y': int, u: int, v: int)
    ensures (g * a) * u + (g * y') * v == g * (a * u + y' * v)
  {
  }

  /** Dividing both numbers by their gcd leaves coprime numbers. */
  lemma ReducedCoprime(x: nat, y: nat, g: nat, a: int, y': int)
    requires g == Gcd(x, y) && g > 0 && x == g * a && y == g * y'
    ensures Coprime(a, y')
  {
    var r := Gcde(x, y);
    GcdeIsGcd(x, y);
    var u, v := r.1, r.2;
    Factored(g, a, y', u, v);
    var s := a * u + y' * v;
    assert g * s == r.0;
    if r.0 == g {
      CancelFactor(g, s, 1);
      CoprimeFromWitness(a, y', u, v);
    } else {
      assert g * s == g * -1;
      CancelFactor(g, s, -1);
      Negated(a, y', u, v);
      CoprimeFromWitness(a, y', -u, -v);
    }
  }

  lemma MulSign(b: int, a: int)
    requires b > 0 && b * a > 0
    ensures a > 0
  {
    if a <= 0 {
      MulMonotone(a, 0, b);
    }
  }

  /** When x divides y(y + 1), b == gcd(x, y) divides y and its cofactor a
      divides y + 1. */
  lemma SplitFactors(x: nat, y: nat) returns (a: nat, b: nat)
    requires x >= 1 && Divides(x, y * (y + 1))
    ensures a * b == x && a >= 1 && b >= 1 && Divides(b, y) && Divides(a, y + 1)
  {
    b := Gcd(x, y);
    GcdPositiveBound(x, y);
    GcdDividesBoth(x, y);
    var a' := DividesWitness(b, x);
    var y' := DividesWitness(b, y);
    MulSign(b, a');
    a := a';
    ReducedCoprime(x, y, b, a, y');
    var k := DividesWitness(x, y * (y + 1));
    assert b * (y' * (y + 1)) == b * (a * k) by {
      Rearrange3(b, y', y + 1);
      Rearrange3(b, a, k);
    }
    CancelFactor(b, y' * (y + 1), a * k);
    DividesMultiple(a, k);
    Gauss(a, y', y + 1);
  }

  /** Such a splitting is proper when x divides neither y nor y + 1. */
  lemma SplitProper(x: int, y: int, a: int, b: int)
    requires a * b == x && a >= 1 && b >= 1 && Divides(b, y) && Divides(a, y + 1)
    requires !Divides(x, y) && !Divides(x, y + 1)
    ensures ProperPair(x, a, b)
  {
    var e := Gcd(a, b);
    GcdPositiveBound(a, b);
    GcdDividesBoth(a, b);
    DividesTransitive(e, b, y);
    DividesTransitive(e, a, y + 1);
    if e >= 2 {
      NotBoth(e, y);
    }
  }

  /** Both factors of a product divide what the product divides. */
  lemma FactorsDivide(m: int, n: int, z: int)
    requires Divides(m * n, z)
    ensures Divides(m, z) && Divides(n, z)
  {
    var k := DividesWitness(m * n, z);
    Rearrange3(m, n, k);
    DividesMultiple(m, n * k);
    assert z == n * (m * k);
    DividesMultiple(n, m * k);
  }

  /** The divisibility facts a solution of solve_brute_force gives. */
  lemma SolutionDivides(x: nat, y: int)
    requires Solution(x, y)
    ensures Divides(x, y * (y + 1)) && Divides(x + 1, y * (y + 1))
    ensures !Divides(x, y) && !Divides(x, y + 1) && !Divides(x + 1, y) && !Divides(x + 1, y + 1)
  {
    MulMonotone(1, x, x + 1);
    FactorsDivide(x, x + 1, y * (y + 1));
  }

  /** Two residues below ad * bc with the same divisibilities are equal:
      the Chinese remainder theorem for coprime ad and bc. */
  lemma CrtUnique(ad: int, bc: int, y: int, y': int)
    requires ad >= 1 && bc >= 1 && Coprime(ad, bc)
    requires 0 <= y < ad * bc && 0 <= y' < ad * bc
    requires Divides(bc, y) && Divides(bc, y') && Divides(ad, y + 1) && Divides(ad, y' + 1)
    ensures y == y'
  {
    DividesLinear(bc, y, y', 1, -1);
    DividesLinear(ad, y + 1, y' + 1, 1, -1);
    assert (y + 1) * 1 + (y' + 1) * -1 == y * 1 + y' * -1;
    CoprimeProductDivides(ad, bc, y * 1 + y' * -1);
    if y != y' {
      DividesAbs(ad * bc, y * 1 + y' * -1);
      DividesBound(ad * bc, Abs(y * 1 + y' * -1));
    }
  }

  /** A y below x(x + 1) with bc | y and ad | y + 1 is the one find_y
      builds from a, b, c, d. */
  lemma GlueUnique(x: int, a: nat, b: nat, c: nat, d: nat, y: int)
    requires ProperPair(x, a, b) && ProperPair(x + 1, c, d)
    requires 0 <= y < x * (x + 1)
    requires Divides(b, y) && Divides(c, y) && Divides(a, y + 1) && Divides(d, y + 1)
    ensures y == Glue(a, b, c, d)
  {
    ConsecutiveCoprime(x);
    DividesMultiple(b, a);
    DividesMultiple(a, b);
    DividesMultiple(c, d);
    DividesMultiple(d, c);
    assert b * a == x && d * c == x + 1;
    CoprimeDivisors(x, x + 1, b, c);
    CoprimeDivisors(x, x + 1, a, d);
    CoprimeProductDivides(b, c, y);
    CoprimeProductDivides(a, d, y + 1);
    CrossCoprime(x, a, b, c, d);
    GlueDivides(x, a, b, c, d);
    Regroup(a, b, c, d);
    MulMonotone(1, a * d, b * c);
    CrtUnique(a * d, b * c, y, Glue(a, b, c, d));
  }

  /** y fixes the splitting: a factor b of x dividing y whose cofactor a
      divides y + 1 is the same for every such splitting. */
  lemma SplitUnique(x: int, a: int, b: int, a': int, b': int, y: int)
    requires a >= 1 && b >= 1 && a * b == x && Divides(b, y) && Divides(a, y + 1)
    requires a' >= 1 && b' >= 1 && a' * b' == x && Divides(b', y) && Divides(a', y + 1)
    ensures a == a' && b == b'
  {
    FactorDividesSplit(x, a, b, a', b', y);
    FactorDividesSplit(x, a', b', a, b, y);
    DividesBound(b', b);
    DividesBound(b, b');
    assert b * a == b * a';
    CancelFactor(b, a, a');
  }

  /** The factor b' dividing y is coprime to a, which divides y + 1, so it
      divides the other factor b. */
  lemma FactorDividesSplit(x: int, a: int, b: int, a': int, b': int, y: int)
    requires a >= 1 && b >= 1 && a * b == x && Divides(a, y + 1)
    requires a' >= 1 && b' >= 1 && a' * b' == x && Divides(b', y)
    ensures Divides(b', b)
  {
    var e := Gcd(b', a);
    GcdPositiveBound(b', a);
    GcdDividesBoth(b', a);
    DividesTransitive(e, b', y);
    DividesTransitive(e, a, y + 1);
    if e >= 2 {
      NotBoth(e, y);
    }
    DividesMultiple(b', a');
    assert b' * a' == a * b;
    Gauss(b', a, b);
  }

  /** Different splittings give different y: find_y never yields the
      same y twice. */
  lemma GlueInjective(x: int, a: nat, b: nat, c: nat, d: nat, a': nat, b': nat, c': nat, d': nat)
    requires ProperPair(x, a, b) && ProperPair(x + 1, c, d)
    requires ProperPair(x, a', b') && ProperPair(x + 1, c', d')
    requires Glue(a, b, c, d) == Glue(a', b', c', d')
    ensures a == a' && b == b' && c == c' && d == d'
  {
    var y := Glue(a, b, c, d);
    GlueFactors(x, a, b, c, d);
    GlueFactors(x, a', b', c', d');
    SplitUnique(x, a, b, a', b', y);
    SplitUnique(x + 1, d, c, d', c', y);
  }

  /** Each factor divides the y of find_y or its successor on its own. */
  lemma GlueFactors(x: int, a: nat, b: nat, c: nat, d: nat)
    requires ProperPair(x, a, b) && ProperPair(x + 1, c, d)
    ensures var y := Glue(a, b, c, d);
      Divides(b, y) && Divides(c, y) && Divides(a, y + 1) && Divides(d, y + 1) && d * c == x + 1
  {
    var y := Glue(a, b, c, d);
    GlueDivides(x, a, b, c, d);
    FactorsDivide(b, c, y);
    FactorsDivide(a, d, y + 1);
  }

  /** Every solution of solve_brute_force comes out of find_y: x and x + 1
      split into coprime factors and y is the residue built from them. */
  lemma SolutionGlued(x: nat, y: int)
    requires Solution(x, y)
    ensures Glued(x, y)
  {
    SolutionDivides(x, y);
    var a, b := SplitFactors(x, y);
    var d, c := SplitFactors(x + 1, y);
    SplitProper(x, y, a, b);
    SplitProper(x + 1, y, d, c);
    ProperPairSwap(x + 1, d, c);
    GlueUnique(x, a, b, c, d, y);
  }

  /** solve skips every x where x or x + 1 is a prime power: there is no
      solution there. */
  lemma PrimePowerNoSolution(x: nat, y: int)
    requires IsPrimePower(x) || IsPrimePower(x + 1)
    ensures !Solution(x, y)
  {
    if Solution(x, y) {
      SolutionGlued(x, y);
      var a: nat, b: nat, c: nat, d: nat :|
        ProperPair(x, a, b) && ProperPair(x + 1, c, d) && y == Glue(a, b, c, d);
      ProperPairNotPrimePower(x, a, b);
      ProperPairNotPrimePower(x + 1, c, d);
    }
  }
}
