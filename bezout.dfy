/** The extended Euclid algorithm `gcde` of "Une grande famille de
    couples", and the facts about coprimality and primes that the rest of
    that script relies on. */
module Bezout {
  import opened Numbers

  /** gcde(a, b): (d, x, y) with a * x + b * y == d, recursing on
      (b mod a, a) with Python's floor division and modulo. */
  function Gcde(a: int, b: int): (r: (int, int, int))
    ensures a * r.1 + b * r.2 == r.0
    decreases Abs(a)
  {
    if a == 0 then (b, 0, 1)
    else
      var m, q := FloorMod(b, a), FloorDiv(b, a);
      var (d, x, y) := Gcde(m, a);
      BezoutStep(a, b, q, m, d, x, y);
      (d, y - q * x, x)
  }

  /** Going back up one level of gcde keeps the identity. */
  lemma BezoutStep(a: int, b: int, q: int, m: int, d: int, x: int, y: int)
    requires b == a * q + m && m * x + a * y == d
    ensures a * (y - q * x) + b * x == d
  {
    assert a * (y - q * x) == a * y - (a * q) * x;
    assert b * x == (a * q) * x + m * x;
  }

  /** The d of gcde divides both arguments. */
  lemma {:induction false} GcdeDivides(a: int, b: int)
    ensures Divides(Gcde(a, b).0, a) && Divides(Gcde(a, b).0, b)
    decreases Abs(a)
  {
    var d := Gcde(a, b).0;
    if a == 0 {
      DividesMultiple(b, 1);
    } else {
      var m, q := FloorMod(b, a), FloorDiv(b, a);
      GcdeDivides(m, a);
      DividesLinear(d, a, m, q, 1);
    }
  }

  /** Divisibility ignores signs. */
  lemma DividesAbs(d: int, n: int)
    requires Divides(d, n)
    ensures Divides(d, Abs(n)) && Divides(Abs(d), n) && Divides(Abs(d), Abs(n))
  {
    DividesNegate(d, n);
    if d < 0 {
      DividesNegate(-d, n);
    }
  }

  /** A divisor of the absolute value divides the number. */
  lemma DividesFromAbs(d: int, n: int)
    requires Divides(d, Abs(n))
    ensures Divides(d, n)
  {
    if n < 0 {
      DividesNegate(d, -n);
    }
  }

  /** Two numbers dividing each other have the same absolute value. */
  lemma MutualDivides(d: int, g: nat)
    requires Divides(d, g) && Divides(g, d)
    ensures Abs(d) == g
  {
    if g != 0 {
      DividesAbs(d, g);
      DividesAbs(g, d);
      DividesBound(Abs(d), g);
      DividesBound(g, Abs(d));
    }
  }

  /** |d| is the greatest common divisor of a and b, as math.gcd computes it
      on their absolute values. */
  lemma GcdeIsGcd(a: int, b: int)
    ensures Abs(Gcde(a, b).0) == Gcd(Abs(a), Abs(b))
  {
    var (d, x, y) := Gcde(a, b);
    var g := Gcd(Abs(a), Abs(b));
    GcdeDivides(a, b);
    DividesAbs(d, a);
    DividesAbs(d, b);
    CommonDivisorDividesGcd(Abs(a), Abs(b), d);
    GcdDividesBoth(Abs(a), Abs(b));
    DividesFromAbs(g, a);
    DividesFromAbs(g, b);
    DividesLinear(g, a, b, x, y);
    MutualDivides(d, g);
  }

  /** gcd(a, b) == 1. */
  predicate Coprime(a: int, b: int)
  {
    Gcd(Abs(a), Abs(b)) == 1
  }

  /** Coprime numbers have Bezout coefficients for 1, which gcde finds. */
  lemma CoprimeWitness(a: int, b: int) returns (u: int, v: int)
    requires Coprime(a, b)
    ensures a * u + b * v == 1
  {
    var r := Gcde(a, b);
    GcdeIsGcd(a, b);
    if r.0 == 1 {
      u, v := r.1, r.2;
    } else {
      u, v := -r.1, -r.2;
      Negated(a, b, r.1, r.2);
    }
  }

  lemma Negated(a: int, b: int, x: int, y: int)
    ensures a * -x + b * -y == -(a * x + b * y)
  {
  }

  /** Bezout coefficients for 1 make two numbers coprime. */
  lemma CoprimeFromWitness(a: int, b: int, u: int, v: int)
    requires a * u + b * v == 1
    ensures Coprime(a, b)
  {
    var g := Gcd(Abs(a), Abs(b));
    GcdDividesBoth(Abs(a), Abs(b));
    DividesFromAbs(g, a);
    DividesFromAbs(g, b);
    DividesLinear(g, a, b, u, v);
    GcdZeroOnlyForZeros(Abs(a), Abs(b));
    DividesBound(g, 1);
  }

  lemma CoprimeSymmetric(a: int, b: int)
    requires Coprime(a, b)
    ensures Coprime(b, a)
  {
    var u, v := CoprimeWitness(a, b);
    CoprimeFromWitness(b, a, v, u);
  }

  /** Coprime to both factors means coprime to the product. */
  lemma CoprimeMul(a: int, b: int, c: int)
    requires Coprime(a, c) && Coprime(b, c)
    ensures Coprime(a * b, c)
  {
    var u1, v1 := CoprimeWitness(a, c);
    var u2, v2 := CoprimeWitness(b, c);
    var s, t := a * u1, b * u2;
    ProductOfOnes(s, t, c, v1, v2);
    Rearrange(a, u1, b, u2);
    CoprimeFromWitness(a * b, c, u1 * u2, s * v2 + v1 * t + c * v1 * v2);
  }

  /** Multiplying two combinations equal to 1. */
  lemma ProductOfOnes(s: int, t: int, c: int, v1: int, v2: int)
    requires s + c * v1 == 1 && t + c * v2 == 1
    ensures s * t + c * (s * v2 + v1 * t + c * v1 * v2) == 1
  {
    assert (s + c * v1) * (t + c * v2) == 1;
  }

  lemma Rearrange(a: int, u: int, b: int, v: int)
    ensures (a * u) * (b * v) == (a * b) * (u * v)
  {
  }

  /** Divisors of coprime numbers are coprime. */
  lemma CoprimeDivisors(a: int, b: int, a': int, b': int)
    requires Coprime(a, b) && Divides(a', a) && Divides(b', b)
    ensures Coprime(a', b')
  {
    var u, v := CoprimeWitness(a, b);
    var k := DividesWitness(a', a);
    var l := DividesWitness(b', b);
    Rearrange3(a', k, u);
    Rearrange3(b', l, v);
    CoprimeFromWitness(a', b', k * u, l * v);
  }

  lemma Rearrange3(a: int, k: int, u: int)
    ensures a * (k * u) == (a * k) * u
  {
  }

  /** Consecutive numbers are coprime. */
  lemma ConsecutiveCoprime(x: int)
    ensures Coprime(x, x + 1)
  {
    CoprimeFromWitness(x, x + 1, -1, 1);
  }

  /** A prime: at least 2 and no divisor strictly between 1 and itself. */
  predicate IsPrime(p: int)
  {
    p >= 2 && forall d :: 2 <= d < p ==> p % d != 0
  }

  /** A prime is coprime to every number it does not divide. */
  lemma PrimeCoprime(p: int, n: int)
    requires IsPrime(p) && !Divides(p, n)
    ensures Coprime(p, n)
  {
    var g := Gcd(p, Abs(n));
    GcdPositiveBound(p, Abs(n));
    GcdDividesBoth(p, Abs(n));
    if g == p {
      DividesFromAbs(p, n);
    }
  }

  /** Euclid's lemma: a prime dividing a product divides a factor. */
  lemma Euclid(p: int, a: int, b: int)
    requires IsPrime(p) && Divides(p, a * b)
    ensures Divides(p, a) || Divides(p, b)
  {
    if !Divides(p, a) {
      PrimeCoprime(p, a);
      var u, v := CoprimeWitness(p, a);
      assert b == p * (u * b) + (a * b) * v;
      DividesMultiple(p, 1);
      DividesLinear(p, p, a * b, u * b, v);
    }
  }

  /** A prime dividing a power of a prime is that prime. */
  lemma {:induction false} PrimeDividesPower(p: int, q: int, k: nat)
    requires IsPrime(p) && IsPrime(q) && Divides(p, Pow(q, k))
    ensures p == q
    decreases k
  {
    if k == 0 {
      DividesBound(p, 1);
      assert false;
    }
    Euclid(p, q, Pow(q, k - 1));
    if Divides(p, q) {
      DividesBound(p, q);
    } else {
      PrimeDividesPower(p, q, k - 1);
    }
  }

  /** A prime power has one prime: p^a == q^b with a, b >= 1 forces
      p == q. */
  lemma PrimePowerUnique(p: int, a: nat, q: int, b: nat)
    requires IsPrime(p) && IsPrime(q) && a >= 1 && b >= 1 && Pow(p, a) == Pow(q, b)
    ensures p == q
  {
    DividesMultiple(p, Pow(p, a - 1));
    PrimeDividesPower(p, q, b);
  }
}
