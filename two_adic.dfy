/** "Une équation": residues x modulo 2^k with x^2 + a == 0 modulo 2^k,
    level after level, each level lifted from the one before. For odd a a
    level holds every such residue; for even a only the scaled roots of the
    odd part, which can miss some (MissedRoot). */
module TwoAdicRoots {
  import opened Numbers

  /** A level (k, m, xs) as find_roots yields it. */
  type Level = (nat, nat, set<int>)

  /** 2^k. */
  function Pow2(k: nat): (p: nat)
    ensures p >= 1
  {
    if k == 0 then 1 else 2 * Pow2(k - 1)
  }

  lemma {:induction false} Pow2Add(i: nat, j: nat)
    ensures Pow2(i + j) == Pow2(i) * Pow2(j)
  {
    if i > 0 {
      Pow2Add(i - 1, j);
    }
  }

  /** x in [0, m) and x^2 + a == 0 modulo m. */
  predicate IsRoot(a: int, m: nat, x: int)
  {
    0 <= x < m && (x * x + a) % m == 0
  }

  /** The residues x in [0, m) with x^2 + a == 0 modulo m. */
  function Roots(a: int, m: nat): set<int>
  {
    set x | 0 <= x < m && IsRoot(a, m, x)
  }

  /** A square has the parity of its root. */
  lemma SquareParity(x: int)
    ensures (x * x) % 2 == x % 2
  {
    var j, r := x / 2, x % 2;
    assert x * x == 2 * (2 * j * j + 2 * j * r) + r * r;
    assert r * r == r;
    ModShift(r, 2 * j * j + 2 * j * r, 2);
  }

  /** Roots come in pairs x, -x modulo m. */
  lemma NegatedRoot(a: int, m: nat, x: int)
    requires x in Roots(a, m)
    ensures (-x) % m in Roots(a, m)
  {
    if x != 0 {
      DivModUnique(-x, m, -1, m - x);
      assert (m - x) * (m - x) + a == x * x + a + (m - 2 * x) * m;
      ModShift(x * x + a, m - 2 * x, m);
    }
  }

  /** A root modulo an even m of x^2 + a, for odd a, is odd. */
  lemma OddRoot(a: int, m: nat, x: int)
    requires a % 2 == 1 && m % 2 == 0 && x in Roots(a, m)
    ensures x % 2 == 1
  {
    SquareParity(x);
    var q, g, sq := (x * x + a) / m, m / 2, x * x;
    Exact(sq + a, m);
    assert m * q == 2 * (g * q);
    DivModUnique(sq, 2, g * q - a / 2 - 1, 1);
  }

  /** Modulo 1 and 2 for odd a: the sets find_roots starts from. */
  lemma LowLevels(a: int)
    requires a % 2 == 1
    ensures Roots(a, 1) == {0} && Roots(a, 2) == {1}
  {
    assert IsRoot(a, 1, 0) && IsRoot(a, 2, 1);
    forall x | x in Roots(a, 2)
      ensures x == 1
    {
      OddRoot(a, 2, x);
    }
  }

  /** Modulo 4 for odd a: both odd residues when -a == 1 modulo 4, none
      otherwise. */
  lemma FourthLevel(a: int)
    requires a % 2 == 1
    ensures Roots(a, 4) == if (-a) % 4 == 1 then {1, 3} else {}
  {
    var q, r := a / 4, a % 4;
    ModShift(r, 2 * q, 2);
    assert r == 1 || r == 3;
    DivModUnique(-a, 4, -q - 1, 4 - r);
    forall x | x in Roots(a, 4)
      ensures x == 1 || x == 3
    {
      OddRoot(a, 4, x);
    }
    ModShift(r + 1, q, 4);
    ModShift(r + 9, q, 4);
    if r == 3 {
      assert IsRoot(a, 4, 1) && IsRoot(a, 4, 3);
    } else {
      assert !IsRoot(a, 4, 1) && !IsRoot(a, 4, 3);
    }
  }

  /** An odd residue x modulo 8 has x^2 == 1 + 8k, so it is a root modulo 8
      exactly when -a == 1 modulo 8. */
  lemma OddResidueEighth(a: int, x: int, k: int)
    requires x * x == 1 + 8 * k
    ensures IsRoot(a, 8, x) <==> 0 <= x < 8 && (-a) % 8 == 1
  {
    ModShift(1 + a, k, 8);
    assert x * x + a == (1 + a) + k * 8;
    var r := a % 8;
    assert a == 8 * (a / 8) + r;
    ModShift(r + 1, a / 8, 8);
    ModShift(-r, -(a / 8), 8);
    assert (-a) % 8 == (-r) % 8;
  }

  /** Modulo 8 for odd a: every odd residue when -a == 1 modulo 8, none
      otherwise. */
  lemma EighthLevel(a: int)
    requires a % 2 == 1
    ensures Roots(a, 8) == if (-a) % 8 == 1 then {1, 3, 5, 7} else {}
  {
    forall x | x in Roots(a, 8)
      ensures x == 1 || x == 3 || x == 5 || x == 7
    {
      OddRoot(a, 8, x);
    }
    OddResidueEighth(a, 1, 0);
    OddResidueEighth(a, 3, 1);
    OddResidueEighth(a, 5, 3);
    OddResidueEighth(a, 7, 6);
  }

  /** What the loop body of find_roots adds for a root x modulo h on the way
      to modulo m == 2h: nothing when n == (x^2 + a) / h is odd, else x, -x,
      x * (h + 1) and its negation, all reduced modulo m. */
  function Lifts(a: int, h: nat, x: int): set<int>
    requires h >= 1
  {
    var m := 2 * h;
    if ((x * x + a) / h) % 2 == 1 then {}
    else
      var y := x * (h + 1) % m;
      {x % m, (-x) % m, y % m, (-y) % m}
  }

  /** xs' holds exactly what the loop body adds for the roots in done. */
  ghost predicate Gathered(xs': set<int>, a: int, h: nat, done: set<int>)
    requires h >= 1
  {
    forall y :: y in xs' <==> exists x :: x in done && y in Lifts(a, h, x)
  }

  lemma GatherStep(xs': set<int>, a: int, h: nat, done: set<int>, x: int)
    requires h >= 1 && Gathered(xs', a, h, done)
    ensures Gathered(xs' + Lifts(a, h, x), a, h, done + {x})
  {
  }

  /** For an odd root x modulo an even h, x * (h + 1) is x + h modulo 2h. */
  lemma TimesMod(x: int, h: nat)
    requires h >= 1 && 0 <= x < h && x % 2 == 1
    ensures x * (h + 1) % (2 * h) == x + h
  {
    var j := x / 2;
    assert x * (h + 1) == (x + h) + j * (2 * h);
    DivModUnique(x * (h + 1), 2 * h, j, x + h);
  }

  /** A root x modulo an even h is odd, and it is a root modulo 2h exactly
      when n == (x^2 + a) / h is even. */
  lemma RootHalves(a: int, h: nat, x: int)
    requires a % 2 == 1 && h >= 2 && h % 2 == 0 && x in Roots(a, h)
    ensures x % 2 == 1
    ensures ((x * x + a) / h) % 2 == 0 <==> (x * x + a) % (2 * h) == 0
  {
    OddRoot(a, h, x);
    var n := (x * x + a) / h;
    Exact(x * x + a, h);
    var q, r := n / 2, n % 2;
    assert x * x + a == q * (2 * h) + r * h;
    DivModUnique(x * x + a, 2 * h, q, r * h);
  }

  /** Squares of y and of y + c * m agree modulo m when c * (2y + c * m) is
      an integer multiple d: the step every lifted value relies on. */
  lemma SquareShift(a: int, m: nat, y: int, z: int, d: int)
    requires m >= 1 && z * z == y * y + d * m
    ensures (z * z + a) % m == (y * y + a) % m
  {
    ModShift(y * y + a, d, m);
  }

  /** For a root x modulo an even h, the loop body adds nothing or the four
      values x, 2h - x, x + h and h - x. */
  lemma LiftedValues(a: int, h: nat, x: int)
    requires a % 2 == 1 && h >= 2 && h % 2 == 0 && x in Roots(a, h)
    ensures x % 2 == 1
    ensures Lifts(a, h, x) == {} || Lifts(a, h, x) == {x, 2 * h - x, x + h, h - x}
    ensures Lifts(a, h, x) != {} <==> (x * x + a) % (2 * h) == 0
  {
    RootHalves(a, h, x);
    var n := (x * x + a) / h;
    if n % 2 == 1 {
      DroppedLifts(a, h, x, n);
    } else {
      var y := x * (h + 1) % (2 * h);
      KeptLifts(a, h, x, n, y);
      KeptResidues(h, x, y);
    }
  }

  /** The four residues the loop body adds for an odd x in [0, h), h even. */
  lemma KeptResidues(h: nat, x: int, y: int)
    requires h >= 2 && 0 <= x < h && x % 2 == 1 && y == x * (h + 1) % (2 * h)
    ensures x % (2 * h) == x && (-x) % (2 * h) == 2 * h - x
    ensures y % (2 * h) == x + h && (-y) % (2 * h) == h - x
  {
    var m := 2 * h;
    TimesMod(x, h);
    DivModUnique(x, m, 0, x);
    DivModUnique(x + h, m, 0, x + h);
    DivModUnique(-x, m, -1, m - x);
    DivModUnique(-(x + h), m, -1, h - x);
  }

  /** A root x modulo 2h with h even brings 2h - x, x + h and h - x along. */
  lemma ShiftedRoots(a: int, h: nat, x: int)
    requires h >= 2 && h % 2 == 0 && 0 < x < h && (x * x + a) % (2 * h) == 0
    ensures {x, 2 * h - x, x + h, h - x} <= Roots(a, 2 * h)
  {
    var m, g := 2 * h, h / 2;
    assert h == 2 * g;
    Square(x, m);
    HalfSquare(x, h, g);
    SquareShift(a, m, x, m - x, m - 2 * x);
    SquareShift(a, m, x, x + h, x + g);
    SquareShift(a, m, x, h - x, g - x);
  }

  /** (m - x)^2 == x^2 + (m - 2x) m. */
  lemma Square(x: int, m: int)
    ensures (m - x) * (m - x) == x * x + (m - 2 * x) * m
  {
  }

  /** (x + h)^2 and (h - x)^2 differ from x^2 by multiples of 2h when h == 2g. */
  lemma HalfSquare(x: int, h: int, g: int)
    requires h == 2 * g
    ensures (x + h) * (x + h) == x * x + (x + g) * (2 * h)
    ensures (h - x) * (h - x) == x * x + (g - x) * (2 * h)
  {
    assert h * h == g * (2 * h);
  }

  /** Everything the loop body adds is a root modulo 2h. */
  lemma LiftsAreRoots(a: int, h: nat, x: int, z: int)
    requires a % 2 == 1 && h >= 2 && h % 2 == 0 && x in Roots(a, h) && z in Lifts(a, h, x)
    ensures z in Roots(a, 2 * h)
  {
    LiftedValues(a, h, x);
    ShiftedRoots(a, h, x);
  }

  /** Every root modulo 2h comes from the root it leaves modulo h. */
  lemma RootsLift(a: int, h: nat, z: int)
    requires a % 2 == 1 && h >= 2 && h % 2 == 0 && z in Roots(a, 2 * h)
    ensures z % h in Roots(a, h) && z in Lifts(a, h, z % h)
  {
    var x := z % h;
    RootResidue(a, h, z);
    RootAgain(a, h, x, z);
    LiftedValues(a, h, x);
  }

  /** A root z modulo 2h leaves a root z % h modulo h, and z is that
      residue or that residue plus h. */
  lemma RootResidue(a: int, h: nat, z: int)
    requires h >= 2 && h % 2 == 0 && z in Roots(a, 2 * h)
    ensures z % h in Roots(a, h) && (z == z % h || z == z % h + h)
  {
    var x := z % h;
    var j := (z * z + a) / (2 * h);
    assert z * z + a == (2 * j) * h;
    if z < h {
      DivModUnique(z, h, 0, z);
      DivModUnique(z * z + a, h, 2 * j, 0);
    } else {
      DivModUnique(z, h, 1, z - h);
      assert z * z == x * x + (2 * x + h) * h;
      assert x * x + a == (2 * j - 2 * x - h) * h;
      DivModUnique(x * x + a, h, 2 * j - 2 * x - h, 0);
    }
  }

  /** If x or x + h is a root modulo 2h (h even), so is x. */
  lemma RootAgain(a: int, h: nat, x: int, z: int)
    requires h >= 2 && h % 2 == 0 && (z == x || z == x + h) && (z * z + a) % (2 * h) == 0
    ensures (x * x + a) % (2 * h) == 0
  {
    if z == x + h {
      SquareShift(a, 2 * h, x, z, x + h / 2);
    }
  }

  /** Gathering over every root modulo h gives every root modulo 2h. */
  lemma LiftRoots(a: int, h: nat, xs: set<int>, xs': set<int>)
    requires a % 2 == 1 && h >= 2 && h % 2 == 0
    requires xs == Roots(a, h) && Gathered(xs', a, h, xs)
    ensures xs' == Roots(a, 2 * h)
  {
    forall z | z in xs'
      ensures z in Roots(a, 2 * h)
    {
      var x :| x in xs && z in Lifts(a, h, x);
      LiftsAreRoots(a, h, x, z);
    }
    forall z | z in Roots(a, 2 * h)
      ensures z in xs'
    {
      RootsLift(a, h, z);
    }
  }

  lemma KeptLifts(a: int, h: nat, x: int, n: int, y: int)
    requires h >= 1 && n == (x * x + a) / h && n % 2 != 1 && y == x * (h + 1) % (2 * h)
    ensures Lifts(a, h, x) == {x % (2 * h), (-x) % (2 * h), y % (2 * h), (-y) % (2 * h)}
  {
  }

  lemma DroppedLifts(a: int, h: nat, x: int, n: int)
    requires h >= 1 && n == (x * x + a) / h && n % 2 == 1
    ensures Lifts(a, h, x) == {}
  {
  }

  /** The for loop of find_roots: for each root x modulo h == m / 2, add
      what Lifts gives, skipping x when n is odd. */
  method GatherLifts(a: int, k: nat, m: nat, xs: set<int>) returns (xs': set<int>)
    requires k >= 1 && m == Pow2(k)
    ensures Gathered(xs', a, m / 2, xs)
  {
    var h := Pow2(k - 1);
    assert m == 2 * h && m / 2 == h;
    xs' := {};
    var rest := xs;
    while rest != {}
      invariant rest <= xs && Gathered(xs', a, h, xs - rest)
      decreases |rest|
    {
      if forall v :: v !in rest {
        assert false;
      }
      var x :| x in rest;
      assert xs - (rest - {x}) == (xs - rest) + {x};
      GatherStep(xs', a, h, xs - rest, x);
      rest := rest - {x};
      ghost var before := xs';
      var n := (x * x + a) / Pow2(k - 1);
      if n % 2 == 1 {
        DroppedLifts(a, h, x, n);
        assert xs' == before + Lifts(a, h, x);
        continue;
      }
      xs' := xs' + {x % m, (-x) % m};
      var y := x * (m / 2 + 1);
      y := y % m;
      xs' := xs' + {y % m, (-y) % m};
      KeptLifts(a, h, x, n, y);
      assert xs' == before + Lifts(a, h, x);
    }
    assert xs - rest == xs;
  }

  /** One pass of the while loop of find_roots: k and m double up, and the
      roots modulo 2^(k-1) give exactly the roots modulo m == 2^k. */
  method Lift(a: int, k: nat, m: nat, xs: set<int>) returns (xs': set<int>)
    requires a % 2 == 1 && k >= 2 && m == Pow2(k) && xs == Roots(a, m / 2)
    ensures xs' == Roots(a, m)
  {
    xs' := GatherLifts(a, k, m, xs);
    assert m / 2 == 2 * Pow2(k - 2);
    LiftRoots(a, m / 2, xs, xs');
  }

  /** Hensel's lifting for odd a with -a == 1 modulo 8: every level has a
      root, so find_roots never stops. */
  lemma {:induction false} RootsPersist(a: int, k: nat)
    requires a % 2 == 1 && (-a) % 8 == 1 && k >= 3
    ensures Roots(a, Pow2(k)) != {}
  {
    if k == 3 {
      EighthLevel(a);
      assert Pow2(3) == 8;
      assert 1 in Roots(a, 8);
    } else {
      RootsPersist(a, k - 1);
      var h := Pow2(k - 1);
      Pow2Add(3, k - 4);
      assert Pow2(3) == 8 && h == 8 * Pow2(k - 4) && Pow2(k) == 2 * h;
      var x :| x in Roots(a, h);
      RootHalves(a, h, x);
      if (x * x + a) % (2 * h) != 0 {
        var r, q := Pow2(k - 4), (x * x + a) / h;
        Exact(x * x + a, h);
        HalfShift(a, r, x, q);
        assert IsRoot(a, Pow2(k), x + 4 * r);
        assert x + 4 * r in Roots(a, Pow2(k));
      } else {
        assert IsRoot(a, Pow2(k), x);
        assert x in Roots(a, Pow2(k));
      }
    }
  }

  /** A root x modulo h == 8r that is not one modulo 2h, so that
      x^2 + a == q h with q odd: then x + h / 2 is one modulo 2h. */
  lemma HalfShift(a: int, r: nat, x: int, q: int)
    requires r >= 1 && x * x + a == q * (8 * r) && q % 2 == 1 && x % 2 == 1
    ensures ((x + 4 * r) * (x + 4 * r) + a) % (16 * r) == 0
  {
    var w := (q + x) / 2;
    assert q + x == 2 * w;
    var z := x + 4 * r;
    assert z * z + a == (x * x + a) + 8 * r * x + 16 * r * r;
    assert (x * x + a) + 8 * r * x == (8 * r) * (q + x);
    assert z * z + a == (16 * r) * (w + r);
    DivModUnique(z * z + a, 16 * r, w + r, 0);
  }

  /** The levels 0, 1, ... with every root modulo 2^k, count of them or
      fewer, stopping early only at a level without roots: what find_roots
      yields for odd a. */
  predicate AllLevels(ys: seq<Level>, a: int, count: nat)
  {
    |ys| <= count &&
    (forall i :: 0 <= i < |ys| ==> ys[i] == (i, Pow2(i), Roots(a, Pow2(i)))) &&
    (|ys| == count || Roots(a, Pow2(|ys|)) == {})
  }

  /** find_roots for odd a (the body after the even branch): the levels 0
      to 2 by hand, then the lifting loop from modulo 8, stopping after
      count levels. */
  method OddRoots(a: int, count: nat) returns (ys: seq<Level>)
    requires a % 2 == 1
    ensures AllLevels(ys, a, count)
    ensures (-a) % 8 == 1 ==> |ys| == count
  {
    LowLevels(a);
    FourthLevel(a);
    EighthLevel(a);
    NegatedResidues(a);
    ys := [];
    if count == 0 {
      return;
    }
    ys := [(0, 1, {0})];
    // -a is odd here: the test on -a % 2 always passes.
    assert (-a) % 2 == 1;
    if count == 1 {
      return;
    }
    ys := ys + [(1, 2, {1})];
    if (-a) % 4 == 1 {
      if count == 2 {
        return;
      }
      ys := ys + [(2, 4, {1, 3})];
    }
    var k: nat, m: nat := 3, 8;
    if (-a) % m != 1 {
      return;
    }
    var xs := {1, 3, 5, 7};
    assert Pow2(0) == 1 && Pow2(1) == 2 && Pow2(2) == 4 && Pow2(3) == 8;
    assert |ys| == 3;
    assert ys[0] == (0, Pow2(0), Roots(a, Pow2(0))) && ys[1] == (1, Pow2(1), Roots(a, Pow2(1)));
    assert ys[2] == (2, Pow2(2), Roots(a, Pow2(2)));
    while |ys| < count
      invariant k >= 3 && |ys| == k <= count && m == Pow2(k) && xs == Roots(a, m)
      invariant forall i :: 0 <= i < |ys| ==> ys[i] == (i, Pow2(i), Roots(a, Pow2(i)))
      decreases count - |ys|
    {
      ys := ys + [(k, m, xs)];
      k, m, xs := Climb(a, k, m, xs);
    }
  }

  /** The lines that end one pass of the while loop of find_roots: k and m
      move up a level and xs becomes every root there. */
  method Climb(a: int, k: nat, m: nat, xs: set<int>) returns (k': nat, m': nat, xs': set<int>)
    requires a % 2 == 1 && k >= 3 && m == Pow2(k) && xs == Roots(a, m)
    ensures k' == k + 1 && m' == Pow2(k') && xs' == Roots(a, m')
  {
    k' := k + 1;
    m' := m * 2;
    assert m' / 2 == m;
    xs' := Lift(a, k', m', xs);
  }

  /** For odd a, -a is odd, and -a == 1 modulo 8 gives -a == 1 modulo 4. */
  lemma NegatedResidues(a: int)
    requires a % 2 == 1
    ensures (-a) % 2 == 1 && ((-a) % 8 == 1 ==> (-a) % 4 == 1)
  {
    DivModUnique(-a, 2, -(a / 2) - 1, 1);
    if (-a) % 8 == 1 {
      DivModUnique(-a, 4, 2 * ((-a) / 8), 1);
    }
  }

  /** The number of factors 2 of a: what (a & -a).bit_length() - 1 gives. */
  function Valuation(a: int): (t: nat)
    requires a != 0
    ensures a % Pow2(t) == 0 && (a / Pow2(t)) % 2 == 1
    decreases Abs(a)
  {
    if a % 2 != 0 then 0
    else
      var t := 1 + Valuation(a / 2);
      ShiftOdd(a, t);
      t
  }

  /** Doubling a number with t - 1 factors 2 and an odd part. */
  lemma ShiftOdd(a: int, t: nat)
    requires a != 0 && a % 2 == 0 && t >= 1
    requires (a / 2) % Pow2(t - 1) == 0 && (a / 2 / Pow2(t - 1)) % 2 == 1
    ensures a % Pow2(t) == 0 && (a / Pow2(t)) % 2 == 1
  {
    var p, q := Pow2(t - 1), a / 2 / Pow2(t - 1);
    assert a / 2 == q * p;
    assert a == q * (2 * p);
    DivModUnique(a, 2 * p, q, 0);
  }

  /** The valuation of 2^t * q for odd q is t. */
  lemma {:induction false} ValuationOf(a: int, t: nat, q: int)
    requires q % 2 == 1 && a == Pow2(t) * q
    ensures a != 0 && Valuation(a) == t
    decreases t
  {
    var p := Pow2(t);
    if q > 0 {
      MulStrict(p, 0, q);
    } else {
      MulStrict(p, q, 0);
    }
    if t > 0 {
      var b := Pow2(t - 1) * q;
      assert a == 2 * b;
      ValuationOf(b, t - 1, q);
      assert a / 2 == b;
    }
  }

  /** The roots of a level scaled by s: the set {x << (t // 2) for x in xs}. */
  function Scale(xs: set<int>, s: int): set<int>
  {
    set x | x in xs :: x * s
  }

  /** The levels find_roots yields for a == 2^t * b with t even and b odd:
      the levels of b moved up by t, each root scaled by 2^(t/2). These are
      roots of a (ScaledRoots) but not always all of them (MissedRoot). */
  predicate ScaledLevels(ys: seq<Level>, b: int, t: nat, count: nat)
  {
    |ys| <= count &&
    (forall i :: 0 <= i < |ys| ==> ys[i] == (i + t, Pow2(i + t), Scale(Roots(b, Pow2(i)), Pow2(t / 2)))) &&
    (|ys| == count || Roots(b, Pow2(|ys|)) == {})
  }

  /** What find_roots(a) yields, stopped after count levels, by the
      valuation t of a: all the roots level by level for odd a; the one
      level (t, 2^t, {0}) for odd t; the scaled levels of the odd part for
      even t >= 2. */
  predicate Yields(ys: seq<Level>, a: int, count: nat)
    requires a != 0
  {
    var t := Valuation(a);
    if t == 0 then AllLevels(ys, a, count)
    else if t % 2 == 1 then ys == (if count == 0 then [] else [(t, Pow2(t), {0})])
    else ScaledLevels(ys, a / Pow2(t), t, count)
  }

  /** find_roots(a), stopped after count levels. */
  method FindRoots(a: int, count: nat) returns (ys: seq<Level>)
    requires a != 0
    ensures Yields(ys, a, count)
    decreases Valuation(a)
  {
    if a % 2 == 0 {
      var t := Valuation(a);
      if t == 1 {
        ys := if count == 0 then [] else [(1, 2, {0})];
        return;
      }
      var v := t;
      t := t - t % 2;
      var b := a / Pow2(t);
      assert b != 0 && Valuation(b) == v - t && (Valuation(b) == 0 ==> b == a / Pow2(v)) by {
        OddPart(a, v, t);
      }
      var inner := FindRoots(b, count);
      var s := Pow2(t / 2);
      ys := ShiftLevels(inner, t, s);
      if v % 2 == 1 {
        assert inner == if count == 0 then [] else [(1, 2, {0})];
        if count != 0 {
          assert Scale({0}, s) == {0};
          Pow2Add(1, t);
          assert ys[0] == (v, Pow2(v), {0});
        }
      } else {
        assert AllLevels(inner, b, count) && t == v;
        forall i | 0 <= i < |ys|
          ensures ys[i] == (i + t, Pow2(i + t), Scale(Roots(b, Pow2(i)), s))
        {
          Pow2Add(i, t);
        }
        assert ScaledLevels(ys, b, t, count);
      }
      return;
    }
    ys := OddRoots(a, count);
  }

  /** The for loop over find_roots(a >> t): each level (k, m, xs) becomes
      (k + t, m << t, the roots in xs shifted left by t // 2). */
  method ShiftLevels(inner: seq<Level>, t: nat, s: int) returns (ys: seq<Level>)
    ensures |ys| == |inner|
    ensures forall j :: 0 <= j < |ys| ==> ys[j] == (inner[j].0 + t, inner[j].1 * Pow2(t), Scale(inner[j].2, s))
  {
    var p := Pow2(t);
    ys := [];
    for i := 0 to |inner|
      invariant |ys| == i
      invariant forall j :: 0 <= j < i ==> ys[j] == (inner[j].0 + t, inner[j].1 * p, Scale(inner[j].2, s))
    {
      var (k, m, xs) := inner[i];
      MulMonotone(0, m, p);
      ys := ys + [(k + t, m * p, Scale(xs, s))];
    }
  }

  lemma Exact(a: int, p: int)
    requires p > 0 && a % p == 0
    ensures a == p * (a / p)
  {
  }

  lemma Reassociate(x: int, y: int, z: int)
    ensures (x * y) * z == (x * z) * y
  {
  }

  /** Shifting a out by an even t <= Valuation(a) leaves valuation 0 or 1. */
  lemma OddPart(a: int, v: nat, t: nat)
    requires a != 0 && v == Valuation(a) && t == v - v % 2
    ensures a / Pow2(t) != 0 && Valuation(a / Pow2(t)) == v - t
    ensures v - t == 0 ==> a / Pow2(t) == a / Pow2(v)
  {
    var p, pt, pd := Pow2(v), Pow2(t), Pow2(v - t);
    var q := a / p;
    Pow2Add(v - t, t);
    Exact(a, p);
    Reassociate(pd, pt, q);
    DivModUnique(a, pt, pd * q, 0);
    ValuationOf(pd * q, v - t, q);
  }

  /** Every level of find_roots has m == 2^k and holds roots modulo m only,
      and k strictly increases from one level to the next. */
  lemma YieldsSound(ys: seq<Level>, a: int, count: nat)
    requires a != 0 && Yields(ys, a, count)
    ensures forall i :: 0 <= i < |ys| ==> ys[i].1 == Pow2(ys[i].0) && ys[i].2 <= Roots(a, ys[i].1)
    ensures forall i, j :: 0 <= i < j < |ys| ==> ys[i].0 < ys[j].0
  {
    var t := Valuation(a);
    if t % 2 == 1 {
      assert IsRoot(a, Pow2(t), 0);
    } else if t > 0 {
      var b := a / Pow2(t);
      assert ScaledLevels(ys, b, t, count);
      Exact(a, Pow2(t));
      forall i | 0 <= i < |ys|
        ensures ys[i].1 == Pow2(ys[i].0) && ys[i].2 <= Roots(a, ys[i].1)
      {
        ScaledRoots(a, b, t, i);
      }
      forall i | 0 <= i < |ys|
        ensures ys[i].0 == i + t
      {
        assert ys[i] == (i + t, Pow2(i + t), Scale(Roots(b, Pow2(i)), Pow2(t / 2)));
      }
    }
  }

  /** A root x of b modulo 2^i scales to a root x * 2^(t/2) of 2^t * b
      modulo 2^(i + t), for even t. */
  lemma ScaledRoots(a: int, b: int, t: nat, i: nat)
    requires t % 2 == 0 && a == Pow2(t) * b
    ensures Scale(Roots(b, Pow2(i)), Pow2(t / 2)) <= Roots(a, Pow2(i + t))
  {
    var s, p := Pow2(t / 2), Pow2(i);
    Pow2Add(t / 2, t / 2);
    Pow2Add(i, t);
    assert Pow2(i + t) == p * (s * s);
    forall x | x in Roots(b, p)
      ensures x * s in Roots(a, p * (s * s))
    {
      ScaledRoot(a, b, p, s, x);
    }
  }

  /** One root scaled: x^2 + b == 0 modulo p gives (x s)^2 + s^2 b == 0
      modulo p s^2. */
  lemma ScaledRoot(a: int, b: int, p: nat, s: nat, x: int)
    requires p >= 1 && s >= 1 && a == (s * s) * b && IsRoot(b, p, x)
    ensures IsRoot(a, p * (s * s), x * s)
  {
    var j := (x * x + b) / p;
    Exact(x * x + b, p);
    ScaledSquare(x, b, s, p, j);
    DivModUnique((x * s) * (x * s) + a, p * (s * s), j, 0);
    ScaledBound(x, p, s);
  }

  lemma ScaledSquare(x: int, b: int, s: int, p: int, j: int)
    requires x * x + b == p * j
    ensures (x * s) * (x * s) + (s * s) * b == j * (p * (s * s))
  {
    assert (x * s) * (x * s) == (x * x) * (s * s);
    assert (s * s) * (x * x + b) == (s * s) * (p * j);
    Reassociate(p, j, s * s);
  }

  lemma ScaledBound(x: int, p: int, s: int)
    requires 0 <= x < p && s >= 1
    ensures 0 <= x * s < p * (s * s)
  {
    MulMonotone(0, x, s);
    MulMonotone(x, p - 1, s);
    MulMonotone(1, s, p * s);
    assert (p * s) * s == p * (s * s);
  }

  /** For a == 2 modulo 4, find_roots yields (1, 2, {0}) and nothing else. */
  lemma TwiceOdd(ys: seq<Level>, a: int, count: nat)
    requires a % 4 == 2 && Yields(ys, a, count)
    ensures ys == if count == 0 then [] else [(1, 2, {0})]
  {
    var q := a / 4;
    DivModUnique(a, 2, 2 * q + 1, 0);
    DivModUnique(2 * q + 1, 2, q, 1);
    assert Pow2(1) == 2;
    ValuationOf(a, 1, 2 * q + 1);
  }

  /** For odd a with -a == 1 modulo 8 the levels never run out: find_roots
      yields as many as it is asked for. */
  lemma EndlessLevels(ys: seq<Level>, a: int, count: nat)
    requires a % 2 == 1 && Yields(ys, a, count) && (-a) % 8 == 1
    ensures |ys| == count
  {
    assert Valuation(a) == 0;
    var k := |ys|;
    if k < 3 {
      LowLevels(a);
      FourthLevel(a);
      assert Pow2(0) == 1 && Pow2(1) == 2 && Pow2(2) == 4;
      assert 1 in Roots(a, 4);
      assert Roots(a, Pow2(k)) != {};
    } else {
      RootsPersist(a, k);
    }
  }

  /** For a == 28 == 4 * 7 the level (5, 32) holds the doubled roots of 7
      modulo 8, {2, 6, 10, 14}, yet 30 is a root modulo 32 as well:
      30^2 + 28 == 29 * 32. */
  lemma MissedRoot(ys: seq<Level>)
    requires Yields(ys, 28, 4)
    ensures |ys| == 4 && ys[3].0 == 5 && ys[3].1 == 32
    ensures IsRoot(28, 32, 30) && 30 !in ys[3].2
  {
    YieldsOf28(ys);
    SevenLevels();
    assert |ys| == 4;
    assert ys[3] == (3 + 2, Pow2(3 + 2), Scale(Roots(7, Pow2(3)), Pow2(1)));
    assert Pow2(5) == 32;
    assert 30 !in Scale({1, 3, 5, 7}, 2);
    assert (30 * 30 + 28) % 32 == 0;
  }

  lemma YieldsOf28(ys: seq<Level>)
    requires Yields(ys, 28, 4)
    ensures ScaledLevels(ys, 7, 2, 4)
  {
    var t := Valuation(28);
    ValuationOf(28, 2, 7);
    assert t == 2 && Pow2(t) == 4 && t % 2 == 0;
    assert 28 / Pow2(t) == 7;
  }

  /** The roots of 7 modulo 1, 2, 4 and 8. */
  lemma SevenLevels()
    ensures Roots(7, Pow2(0)) != {} && Roots(7, Pow2(1)) != {} && Roots(7, Pow2(2)) != {}
    ensures Roots(7, Pow2(3)) == {1, 3, 5, 7} && Pow2(1) == 2
  {
    assert Pow2(0) == 1 && Pow2(1) == 2 && Pow2(2) == 4 && Pow2(3) == 8;
    LowLevels(7);
    FourthLevel(7);
    EighthLevel(7);
    assert 1 in Roots(7, 4);
  }
}
