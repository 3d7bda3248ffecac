/** "Une équation diophantienne": the pairs (b, c) with c^p - b^p == m, for
    p == 2a and m == 12 a^p, found by moving two cursors b < c upwards. */
module PowerDifference {
  import opened Numbers

  /** (b, c) is a solution: 1 <= b < c and c^p - b^p == m. */
  predicate Solves(p: nat, m: int, b: int, c: int)
  {
    1 <= b < c && Pow(c, p) - Pow(b, p) == m
  }

  /** Every solution with b' < b or c' < c is in sols: the part of the
      plane the two cursors have left behind. */
  ghost predicate Complete(sols: seq<(nat, nat)>, p: nat, m: int, b: nat, c: nat)
  {
    forall b': nat, c': nat :: Solves(p, m, b', c') && (b' < b || c' < c) ==> (b', c') in sols
  }

  /** The c of the solutions strictly increase. */
  predicate IncreasingC(sols: seq<(nat, nat)>)
  {
    forall i, j :: 0 <= i < j < |sols| ==> sols[i].1 < sols[j].1
  }

  lemma {:induction false} PowOfOne(p: nat)
    ensures Pow(1, p) == 1
  {
    if p > 0 {
      PowOfOne(p - 1);
    }
  }

  /** One more factor: (x + 1)^(q + 1) - x^(q + 1) == x * gap + (x + 1)^q. */
  lemma GapStep(x: nat, q: nat)
    ensures Pow(x + 1, q + 1) - Pow(x, q + 1) == x * (Pow(x + 1, q) - Pow(x, q)) + Pow(x + 1, q)
  {
    var u, v := Pow(x + 1, q), Pow(x, q);
    assert Pow(x + 1, q + 1) == (x + 1) * u && Pow(x, q + 1) == x * v;
    assert (x + 1) * u - x * v == x * (u - v) + u;
  }

  /** The gap between consecutive p-th powers grows with the base. */
  lemma {:induction false} GapGrows(x: nat, y: nat, p: nat)
    requires x <= y
    ensures Pow(x + 1, p) - Pow(x, p) <= Pow(y + 1, p) - Pow(y, p)
    decreases p
  {
    if p > 0 {
      var q := p - 1;
      GapGrows(x, y, q);
      var gx, gy := Pow(x + 1, q) - Pow(x, q), Pow(y + 1, q) - Pow(y, q);
      PowMonotone(x, x + 1, q);
      PowMonotone(x + 1, y + 1, q);
      MulMonotone(x, y, gx);
      MulMonotone(gx, gy, y);
      GapStep(x, q);
      GapStep(y, q);
    }
  }

  /** b^p + m < c^p: no c' >= c pairs with b. */
  lemma AdvanceB(sols: seq<(nat, nat)>, p: nat, m: int, b: nat, c: nat)
    requires Complete(sols, p, m, b, c) && Pow(b, p) + m < Pow(c, p)
    ensures Complete(sols, p, m, b + 1, c)
  {
    forall c': nat | c' >= c
      ensures !Solves(p, m, b, c')
    {
      PowMonotone(c, c', p);
    }
  }

  /** b^p + m >= c^p: the only b' >= b that pairs with c is b itself. */
  lemma AdvanceC(sols: seq<(nat, nat)>, p: nat, m: int, b: nat, c: nat, sols': seq<(nat, nat)>)
    requires Complete(sols, p, m, b, c) && Pow(b, p) + m >= Pow(c, p) && (p > 0 || m != 0)
    requires sols' == if Pow(b, p) + m == Pow(c, p) && b < c then sols + [(b, c)] else sols
    ensures Complete(sols', p, m, b, c + 1)
  {
    forall b': nat, c': nat | Solves(p, m, b', c') && (b' < b || c' < c + 1)
      ensures (b', c') in sols'
    {
      if b' < b || c' < c {
        assert (b', c') in sols;
      } else if b' > b {
        OnlyB(p, m, b, b', c);
      }
    }
  }

  lemma OnlyB(p: nat, m: int, b: nat, b': nat, c: nat)
    requires b < b' && Pow(b, p) + m >= Pow(c, p) && (p > 0 || m != 0)
    ensures !Solves(p, m, b', c)
  {
    if p > 0 {
      PowStrictlyIncreasing(b, b', p);
    }
  }

  /** Once the cursors meet at c, with c^p - (c - 1)^p > m, every solution
      has been found: beyond them the gaps only grow. */
  lemma ExitComplete(sols: seq<(nat, nat)>, p: nat, m: int, c: nat)
    requires c >= 2 && Complete(sols, p, m, c, c) && Pow(c - 1, p) + m < Pow(c, p)
    ensures forall b: nat, c': nat :: Solves(p, m, b, c') ==> (b, c') in sols
  {
    forall b: nat, c': nat | Solves(p, m, b, c') && b >= c && c' >= c
      ensures false
    {
      GapGrows(c - 1, b, p);
      PowMonotone(b + 1, c', p);
    }
  }

  /** solve(a): p == 2a, m == 12 a^p; b and c start at 1 and 2 and c moves
      up when b^p + m >= c^p (after yielding when equal), b otherwise, while
      b < c. The loop runs at most `fuel` times; `done` says whether it
      ended. */
  method Solve(a: nat, fuel: nat) returns (sols: seq<(nat, nat)>, done: bool)
    ensures forall s :: s in sols ==> Solves(2 * a, 12 * Pow(a, 2 * a), s.0, s.1)
    ensures IncreasingC(sols)
    ensures done ==> forall b: nat, c: nat :: Solves(2 * a, 12 * Pow(a, 2 * a), b, c) ==> (b, c) in sols
  {
    var p := 2 * a;
    var m := 12 * Pow(a, p);
    var b: nat, c: nat, bp, cp := 1, 2, 1, Pow(2, p);
    sols := [];
    PowOfOne(p);
    var steps := 0;
    while b < c && steps < fuel
      invariant 1 <= b <= c && c >= 2 && bp == Pow(b, p) && cp == Pow(c, p)
      invariant b == c ==> Pow(c - 1, p) + m < Pow(c, p)
      invariant forall s :: s in sols ==> Solves(p, m, s.0, s.1) && s.1 < c
      invariant IncreasingC(sols)
      invariant Complete(sols, p, m, b, c)
      decreases fuel - steps
    {
      if bp + m < cp {
        AdvanceB(sols, p, m, b, c);
        b := b + 1;
        bp := Pow(b, p);
      } else {
        assert p > 0 || m == 12;
        var found := sols;
        if bp + m == cp {
          found := sols + [(b, c)];
        }
        AdvanceC(sols, p, m, b, c, found);
        sols := found;
        c := c + 1;
        cp := Pow(c, p);
      }
      steps := steps + 1;
    }
    done := b >= c;
    if done {
      ExitComplete(sols, p, m, c);
    }
  }
}
