/** "Somme des carrés des chiffres": the map that sends a number to the sum
    of the squares of its decimal digits, and the set of numbers reached
    from 1, ..., limit - 1 by repeating it. */
module DigitSquares {
  import opened Numbers

  /** get_sum_digits(n, base, power): the sum of d ** power over the
      base-`base` digits d of n, lowest digit first. */
  function DigitPowerSum(n: nat, base: nat, power: nat): nat
    requires base >= 2
  {
    if n == 0 then 0
    else
      PowNonNegative(n % base, power);
      Pow(n % base, power) + DigitPowerSum(n / base, base, power)
  }

  /** get_sum_digits as the source computes it, with divmod in a loop. The
      source never stops on a negative n, which the natural type leaves
      out. */
  method SumDigits(n: nat, base: nat, power: nat) returns (s: nat)
    requires base >= 2
    ensures s == DigitPowerSum(n, base, power)
  {
    s := 0;
    var rest: nat := n;
    while rest != 0
      invariant s + DigitPowerSum(rest, base, power) == DigitPowerSum(n, base, power)
    {
      var d := rest % base;
      PowNonNegative(d, power);
      DigitStep(rest, base, power);
      rest := rest / base;
      s := s + Pow(d, power);
    }
  }

  /** The lowest digit splits off the sum. */
  lemma DigitStep(n: nat, base: nat, power: nat)
    requires base >= 2 && n != 0
    ensures DigitPowerSum(n, base, power) == Pow(n % base, power) + DigitPowerSum(n / base, base, power)
    ensures 0 <= n / base < n
  {
    QuotientBelow(n, base);
  }

  /** Dropping the lowest digit of a positive number makes it smaller. */
  lemma QuotientBelow(n: nat, base: nat)
    requires base >= 2 && n != 0
    ensures 0 <= n / base < n
  {
    var q := n / base;
    assert q * base <= n;
    MulMonotone(2, base, q);
  }

  /** The map of the graph: the sum of the squares of the decimal digits. */
  function SquareSum(n: nat): nat
  {
    DigitPowerSum(n, 10, 2)
  }

  /** A positive number has a positive sum: its leading digit counts. */
  lemma {:induction false} SquareSumPositive(n: nat)
    requires n >= 1
    ensures SquareSum(n) >= 1
  {
    if n % 10 == 0 {
      SquareSumPositive(n / 10);
    } else {
      PowPositive(n % 10, 2);
    }
  }

  /** The lowest digit adds at most 9 * 9 to the sum. */
  lemma SquareSumShift(n: nat)
    ensures SquareSum(n) <= 81 + SquareSum(n / 10)
  {
    if n != 0 {
      DigitStep(n, 10, 2);
      PowMonotone(n % 10, 9, 2);
      assert Pow(9, 2) == 81;
    }
  }

  /** A number below 1000 has at most three digits, each adding at most 81. */
  lemma SquareSumSmall(n: nat)
    requires n < 1000
    ensures SquareSum(n) <= 243
  {
    SquareSumShift(n);
    SquareSumShift(n / 10);
    SquareSumShift(n / 10 / 10);
    assert n / 10 / 10 / 10 == 0;
  }

  /** From 1000 on, the map strictly decreases. */
  lemma {:induction false} SquareSumDecreases(n: nat)
    requires n >= 1000
    ensures SquareSum(n) < n
    decreases n
  {
    var q := n / 10;
    PowMonotone(n % 10, 9, 2);
    if q >= 1000 {
      SquareSumDecreases(q);
    } else {
      SquareSumSmall(q);
    }
  }

  /** Below a bound of at least 1000, the map stays below the bound, so the
      set of reached numbers is finite. */
  lemma SquareSumBounded(n: nat, bound: nat)
    requires bound >= 1000 && n < bound
    ensures SquareSum(n) < bound
  {
    if n >= 1000 {
      SquareSumDecreases(n);
    } else {
      SquareSumSmall(n);
    }
  }

  /** range(lo, hi) as a set. */
  function Range(lo: nat, hi: nat): (r: set<nat>)
    ensures forall x: nat :: x in r <==> lo <= x < hi
    decreases hi
  {
    if hi <= lo then {} else Range(lo, hi - 1) + {hi - 1}
  }

  /** get_nodes(limit): every number from 1 to limit - 1, closed under the
      map. Each node is a start or the image of another node. */
  method GetNodes(limit: nat) returns (nodes: set<nat>)
    ensures forall x :: 1 <= x < limit ==> x in nodes
    ensures forall x :: x in nodes ==> SquareSum(x) in nodes
    ensures forall x :: x in nodes ==> 1 <= x && (x < limit || exists y :: y in nodes && SquareSum(y) == x)
  {
    var bound := if limit < 1000 then 1000 else limit;
    nodes := {};
    var newNodes := Range(1, limit);
    while newNodes != {}
      invariant nodes !! newNodes
      invariant forall x :: x in nodes || x in newNodes ==> 1 <= x < bound
      invariant forall x :: 1 <= x < limit ==> x in nodes || x in newNodes
      invariant forall x :: x in nodes ==> SquareSum(x) in nodes || SquareSum(x) in newNodes
      invariant forall x :: x in nodes || x in newNodes ==>
        x < limit || exists y :: y in nodes && SquareSum(y) == x
      decreases Range(0, bound) - nodes
    {
      var node :| node in newNodes;
      ghost var before, pending := nodes, newNodes;
      newNodes := newNodes - {node};
      nodes := nodes + {node};
      var nodeSum := SumDigits(node, 10, 2);
      SquareSumBounded(node, bound);
      SquareSumPositive(node);
      if nodeSum !in nodes {
        newNodes := newNodes + {nodeSum};
      }
      forall x | x in nodes || x in newNodes
        ensures x < limit || exists y :: y in nodes && SquareSum(y) == x
      {
        if x == nodeSum {
          assert node in nodes && SquareSum(node) == x;
        } else {
          assert x in before || x in pending;
          assert before <= nodes;
        }
      }
    }
  }

  /** The chain from 4 is the cycle every unhappy number falls into:
      4, 16, 37, 58, 89, 145, 42, 20, 4. */
  lemma UnhappyCycle()
    ensures SquareSum(4) == 16 && SquareSum(16) == 37 && SquareSum(37) == 58
    ensures SquareSum(58) == 89 && SquareSum(89) == 145 && SquareSum(145) == 42
    ensures SquareSum(42) == 20 && SquareSum(20) == 4
  {
  }
}
