/** Integer helpers shared by the puzzle models: powers, Euclid's gcd,
    divisibility, binomial coefficients and Python's floor division. */
module Numbers {

  /** b ** e for a natural exponent. */
  function Pow(b: int, e: nat): int
  {
    if e == 0 then 1 else b * Pow(b, e - 1)
  }

  lemma {:induction false} PowAdd(b: int, e1: nat, e2: nat)
    ensures Pow(b, e1 + e2) == Pow(b, e1) * Pow(b, e2)
  {
    if e1 > 0 {
      PowAdd(b, e1 - 1, e2);
      assert Pow(b, e1 + e2) == b * Pow(b, e1 - 1 + e2);
      assert b * (Pow(b, e1 - 1) * Pow(b, e2)) == (b * Pow(b, e1 - 1)) * Pow(b, e2);
    }
  }

  lemma {:induction false} PowPositive(b: int, e: nat)
    requires b > 0
    ensures Pow(b, e) > 0
  {
    if e > 0 {
      PowPositive(b, e - 1);
      assert b * Pow(b, e - 1) > 0;
    }
  }

  /** A power of a base of at least 2 grows at least as fast as the exponent. */
  lemma {:induction false} PowAboveExponent(b: int, e: nat)
    requires b >= 2
    ensures Pow(b, e) > e
  {
    if e > 0 {
      PowAboveExponent(b, e - 1);
      assert b * Pow(b, e - 1) >= 2 * Pow(b, e - 1);
    }
  }

  /** x ** k is at least x when x and k are at least 1. */
  lemma {:induction false} PowAtLeastBase(x: int, k: nat)
    requires x >= 1 && k >= 1
    ensures Pow(x, k) >= x
  {
    if k > 1 {
      PowAtLeastBase(x, k - 1);
      assert x * Pow(x, k - 1) >= x * 1;
    }
  }

  /** For a positive exponent, x ** k is strictly increasing in a natural x. */
  lemma {:induction false} PowStrictlyIncreasing(x: nat, y: nat, k: nat)
    requires x < y && k >= 1
    ensures Pow(x, k) < Pow(y, k)
  {
    if k > 1 {
      PowStrictlyIncreasing(x, y, k - 1);
      PowNonNegative(x, k - 1);
      var px, py := Pow(x, k - 1), Pow(y, k - 1);
      MulMonotone(x, y, px);
      MulStrict(y, px, py);
      assert Pow(x, k) == x * px && Pow(y, k) == y * py;
    }
  }

  lemma MulMonotone(x: int, y: int, z: int)
    requires x <= y && z >= 0
    ensures x * z <= y * z
  {
    assert y * z - x * z == (y - x) * z;
  }

  lemma MulStrict(y: int, a: int, b: int)
    requires y > 0 && a < b
    ensures y * a < y * b
  {
    assert y * b - y * a == y * (b - a);
  }

  lemma {:induction false} PowNonNegative(x: nat, k: nat)
    ensures Pow(x, k) >= 0
  {
    if k > 0 {
      PowNonNegative(x, k - 1);
      assert x * Pow(x, k - 1) >= 0;
    }
  }

  lemma {:induction false} PowMonotone(x: nat, y: nat, k: nat)
    requires x <= y
    ensures Pow(x, k) <= Pow(y, k)
  {
    if x < y && k >= 1 {
      PowStrictlyIncreasing(x, y, k);
    }
  }

  /** Python's floor division and modulo; for a positive divisor they agree
      with Dafny's Euclidean operators. */
  function FloorDiv(a: int, b: int): int
    requires b != 0
  {
    if b > 0 then a / b
    else if a % b == 0 then a / b
    else a / b - 1
  }

  function FloorMod(a: int, b: int): (r: int)
    requires b != 0
    ensures a == b * FloorDiv(a, b) + r
    ensures b > 0 ==> 0 <= r < b
    ensures b < 0 ==> b < r <= 0
  {
    if b > 0 then a % b
    else if a % b == 0 then 0
    else a % b + b
  }

  /** Euclidean division is unique: a quotient and a remainder in [0, m)
      are the ones `/` and `%` give. */
  lemma DivModUnique(x: int, m: int, a: int, r: int)
    requires m > 0 && x == a * m + r && 0 <= r < m
    ensures x / m == a && x % m == r
  {
    var q, s := x / m, x % m;
    assert (a - q) * m == s - r;
    if a - q >= 1 {
      MulMonotone(1, a - q, m);
    } else if a - q <= -1 {
      MulMonotone(a - q, -1, m);
    }
  }

  /** Adding a multiple of m leaves the remainder modulo m. */
  lemma ModShift(x: int, n: int, m: int)
    requires m > 0
    ensures (x + n * m) % m == x % m
  {
    assert x + n * m == (x / m + n) * m + x % m;
    DivModUnique(x + n * m, m, x / m + n, x % m);
  }

  /** d divides n; the divisor 0 divides only 0. */
  predicate Divides(d: int, n: int)
  {
    if d == 0 then n == 0 else n % d == 0
  }

  lemma DividesMultiple(d: int, k: int)
    ensures Divides(d, d * k)
  {
    if d != 0 {
      var q, r := (d * k) / d, (d * k) % d;
      assert d * k == d * q + r;
      assert d * (k - q) == r;
      if k - q >= 1 {
        if d > 0 { MulMonotone(1, k - q, d); } else { MulMonotone(1, k - q, -d); }
      } else if k - q <= -1 {
        if d > 0 { MulMonotone(k - q, -1, d); } else { MulMonotone(k - q, -1, -d); }
      }
    }
  }

  lemma DividesWitness(d: int, n: int) returns (k: int)
    requires Divides(d, n)
    ensures n == d * k
  {
    if d == 0 {
      k := 0;
    } else {
      k := n / d;
    }
  }

  /** A common divisor of x and y divides every integer combination of them. */
  lemma DividesLinear(d: int, x: int, y: int, s: int, t: int)
    requires Divides(d, x) && Divides(d, y)
    ensures Divides(d, x * s + y * t)
  {
    var p := DividesWitness(d, x);
    var q := DividesWitness(d, y);
    assert x * s + y * t == d * (p * s + q * t);
    DividesMultiple(d, p * s + q * t);
  }

  lemma DividesNegate(d: int, n: int)
    requires Divides(d, n)
    ensures Divides(d, -n) && Divides(-d, n)
  {
    var p := DividesWitness(d, n);
    assert -n == d * -p;
    DividesMultiple(d, -p);
    assert n == -d * -p;
    DividesMultiple(-d, -p);
  }

  lemma DividesTransitive(a: int, b: int, c: int)
    requires Divides(a, b) && Divides(b, c)
    ensures Divides(a, c)
  {
    var p := DividesWitness(a, b);
    var q := DividesWitness(b, c);
    assert c == a * (p * q);
    DividesMultiple(a, p * q);
  }

  /** A positive multiple is at least as large as its positive divisor. */
  lemma DividesBound(d: int, n: int)
    requires d > 0 && n > 0 && Divides(d, n)
    ensures d <= n
  {
    var k := DividesWitness(d, n);
    if k <= 0 {
      MulMonotone(k, 0, d);
      assert false;
    }
    MulMonotone(1, k, d);
  }

  /** Euclid's greatest common divisor of two naturals (math.gcd). */
  function Gcd(a: nat, b: nat): nat
    decreases b
  {
    if b == 0 then a else Gcd(b, a % b)
  }

  function Abs(x: int): nat
  {
    if x < 0 then -x else x
  }

  lemma {:induction false} GcdDividesBoth(a: nat, b: nat)
    ensures Divides(Gcd(a, b), a) && Divides(Gcd(a, b), b)
    decreases b
  {
    if b != 0 {
      GcdDividesBoth(b, a % b);
      var g := Gcd(a, b);
      assert a == b * (a / b) + (a % b);
      DividesLinear(g, b, a % b, a / b, 1);
    }
  }

  lemma {:induction false} CommonDivisorDividesGcd(a: nat, b: nat, c: int)
    requires Divides(c, a) && Divides(c, b)
    ensures Divides(c, Gcd(a, b))
    decreases b
  {
    if b != 0 {
      assert a % b == a * 1 + b * -(a / b);
      DividesLinear(c, a, b, 1, -(a / b));
      CommonDivisorDividesGcd(b, a % b, c);
    }
  }

  lemma GcdZeroOnlyForZeros(a: nat, b: nat)
    ensures Gcd(a, b) == 0 <==> a == 0 && b == 0
  {
    GcdDividesBoth(a, b);
    if a == 0 && b == 0 {
      assert Gcd(a, b) == 0;
    }
  }

  lemma GcdPositiveBound(a: nat, b: nat)
    requires a > 0
    ensures 0 < Gcd(a, b) <= a
  {
    GcdZeroOnlyForZeros(a, b);
    GcdDividesBoth(a, b);
    DividesBound(Gcd(a, b), a);
  }

  /** Pascal's triangle; C(n, k) == 0 when k > n, as math.comb. */
  function Binomial(n: nat, k: nat): nat
  {
    if k == 0 then 1
    else if n == 0 then 0
    else Binomial(n - 1, k - 1) + Binomial(n - 1, k)
  }

  lemma {:induction false} BinomialAboveN(n: nat, k: nat)
    requires k > n
    ensures Binomial(n, k) == 0
  {
    if n > 0 {
      BinomialAboveN(n - 1, k - 1);
      BinomialAboveN(n - 1, k);
    }
  }

  lemma {:induction false} BinomialPositive(n: nat, k: nat)
    requires k <= n
    ensures Binomial(n, k) >= 1
  {
    if k > 0 {
      BinomialPositive(n - 1, k - 1);
    }
  }

  function Factorial(n: nat): nat
  {
    if n == 0 then 1 else n * Factorial(n - 1)
  }
}
