/** "Hache-menu": the decimals of pi drive a sieve on times. A decimal d at
    position i (counted from 1) forbids the times t with t + i divisible by
    2d + 1. The sieve keeps, for each modulus 2d + 1 in turn, the times
    below the running common multiple `mod` that avoid every forbidden
    residue so far. The digits, which the script reads from a file, are a
    parameter here. */
module ResidueSieve {
  import opened Numbers
  import opened Options

  /** Every entry is a decimal digit. */
  predicate DigitSeq(digits: seq<int>)
  {
    forall i :: 0 <= i < |digits| ==> 0 <= digits[i] <= 9
  }

  /** get_nb_axes(t): the first n whose digit's modulus divides t + n + 1.
      None when the search runs past the digits, where the source raises
      IndexError. */
  method GetNbAxes(digits: seq<int>, t: int) returns (r: Option<nat>)
    requires DigitSeq(digits)
    ensures r.Some? ==> r.value < |digits| && (t + r.value + 1) % (2 * digits[r.value] + 1) == 0
    ensures r.Some? ==> forall n :: 0 <= n < r.value ==> (t + n + 1) % (2 * digits[n] + 1) != 0
    ensures r.None? ==> forall n :: 0 <= n < |digits| ==> (t + n + 1) % (2 * digits[n] + 1) != 0
  {
    var n := 0;
    while n < |digits| && (t + n + 1) % (2 * digits[n] + 1) != 0
      invariant n <= |digits|
      invariant forall j :: 0 <= j < n ==> (t + j + 1) % (2 * digits[j] + 1) != 0
    {
      n := n + 1;
    }
    if n == |digits| {
      return None;
    }
    return Some(n);
  }

  /** pi_decimals.index(0): the position of the first zero, None when there
      is none (the source raises ValueError). */
  function FirstZero(digits: seq<int>): (r: Option<nat>)
    ensures r.Some? ==> r.value < |digits| && digits[r.value] == 0
    ensures r.Some? ==> forall i :: 0 <= i < r.value ==> digits[i] != 0
    ensures r.None? ==> forall i :: 0 <= i < |digits| ==> digits[i] != 0
  {
    if digits == [] then None
    else if digits[0] == 0 then Some(0)
    else match FirstZero(digits[1..]) {
      case None => None
      case Some(k) => Some(k + 1)
    }
  }

  /** The residues modulo m forbidden by digit d: -i mod m for every
      position i (from 1) of the decimals that holds d. */
  function Forbidden(decimals: seq<int>, d: int, m: nat): set<int>
    requires m > 0
  {
    set j | 0 <= j < |decimals| && decimals[j] == d :: (-(j + 1)) % m
  }

  /** The shift of a time by i times the modulus. */
  function Shifted(time: int, i: int, mod: int): int
  {
    time + i * mod
  }

  /** t avoids the forbidden residues of digits 1 to k - 1. */
  predicate Avoids(decimals: seq<int>, t: int, k: nat)
  {
    forall d :: 1 <= d < k ==> t % (2 * d + 1) !in Forbidden(decimals, d, 2 * d + 1)
  }

  /** The times of one round: each kept time shifted by 0 to q - 1 times
      the old modulus, when the shift avoids the new forbidden residues. */
  function Spread(allowed: set<int>, mod: nat, q: nat, m: nat, forbidden: set<int>): set<int>
    requires m > 0
  {
    set time, i | time in allowed && 0 <= i < q && Shifted(time, i, mod) % m !in forbidden
      :: Shifted(time, i, mod)
  }

  /** Adding a multiple of a multiple of m leaves the residue mod m. */
  lemma ShiftResidue(m: int, mod: int, time: int, i: int)
    requires m > 0 && Divides(m, mod)
    ensures (time + i * mod) % m == time % m
  {
    var c := DividesWitness(m, mod);
    assert time + i * mod == time + (i * c) * m;
    ModShift(time, i * c, m);
  }

  /** A shift by a multiple of every earlier modulus keeps avoidance. */
  lemma AvoidsShift(decimals: seq<int>, k: nat, mod: int, time: int, i: int)
    requires forall d :: 1 <= d < k ==> Divides(2 * d + 1, mod)
    ensures Avoids(decimals, time + i * mod, k) <==> Avoids(decimals, time, k)
  {
    forall d | 1 <= d < k
      ensures (time + i * mod) % (2 * d + 1) == time % (2 * d + 1)
    {
      ShiftResidue(2 * d + 1, mod, time, i);
    }
  }

  /** Splitting a time below mod * q into a time below mod and a shift. */
  lemma Split(t: int, mod: nat, q: nat)
    requires mod >= 1 && 0 <= t < mod * q
    ensures t == t % mod + (t / mod) * mod && 0 <= t / mod < q
  {
    if t / mod >= q {
      MulMonotone(q, t / mod, mod);
    }
  }

  /** A shifted time stays below mod * q. */
  lemma Below(time: int, i: int, mod: nat, q: nat)
    requires 0 <= time < mod && 0 <= i < q
    ensures 0 <= time + i * mod < mod * q
  {
    MulMonotone(i, q - 1, mod);
    MulMonotone(0, i, mod);
  }

  /** One round keeps exactly the times below the new modulus that avoid the
      residues of digits 1 to k. */
  lemma SpreadExact(decimals: seq<int>, allowed: set<int>, mod: nat, q: nat, k: nat, m: nat)
    requires mod >= 1 && k >= 1 && m == 2 * k + 1
    requires forall d :: 1 <= d < k ==> Divides(2 * d + 1, mod)
    requires forall t :: t in allowed <==> 0 <= t < mod && Avoids(decimals, t, k)
    ensures forall t :: (t in Spread(allowed, mod, q, m, Forbidden(decimals, k, m))
      <==> 0 <= t < mod * q && Avoids(decimals, t, k + 1))
  {
    var forbidden := Forbidden(decimals, k, m);
    var next := Spread(allowed, mod, q, m, forbidden);
    forall t
      ensures t in next <==> 0 <= t < mod * q && Avoids(decimals, t, k + 1)
    {
      if t in next {
        var time, i :| time in allowed && 0 <= i < q && t == Shifted(time, i, mod) && t % m !in forbidden;
        Below(time, i, mod, q);
        AvoidsShift(decimals, k, mod, time, i);
      }
      if 0 <= t < mod * q && Avoids(decimals, t, k + 1) {
        Split(t, mod, q);
        var time, i := t % mod, t / mod;
        AvoidsShift(decimals, k, mod, time, i);
        assert time in allowed && t == Shifted(time, i, mod);
      }
    }
  }

  /** The new modulus mod * (m / gcd(m, mod)) is a multiple of m and of
      everything mod was a multiple of. */
  lemma NextModulus(mod: nat, m: nat) returns (q: nat)
    requires mod >= 1 && m >= 1
    ensures Gcd(m, mod) >= 1
    ensures q == m / Gcd(m, mod) && q >= 1
    ensures Divides(m, mod * q) && Divides(mod, mod * q)
  {
    var g := Gcd(m, mod);
    GcdPositiveBound(m, mod);
    GcdDividesBoth(m, mod);
    q := m / g;
    var a := DividesWitness(g, mod);
    var b := DividesWitness(g, m);
    DivModUnique(m, g, b, 0);
    Commute(g, a, b);
    DividesMultiple(m, a);
    DividesMultiple(mod, q);
  }

  lemma Commute(g: int, a: int, b: int)
    ensures (g * a) * b == (g * b) * a
  {
  }

  /** main's sieve over the digits 1 to 9. None when the digits hold no 0,
      where the source raises ValueError. Otherwise every modulus 2d + 1
      divides the final modulus, and the allowed times are exactly the
      times below it that avoid every forbidden residue. */
  method Sieve(digits: seq<int>) returns (r: Option<(set<int>, nat)>)
    requires DigitSeq(digits)
    ensures r.None? <==> FirstZero(digits).None?
    ensures r.Some? ==> r.value.1 >= 1
    ensures r.Some? ==> forall d :: 1 <= d <= 9 ==> Divides(2 * d + 1, r.value.1)
    ensures r.Some? ==> forall t :: (t in r.value.0 <==>
      0 <= t < r.value.1 && Avoids(digits[..FirstZero(digits).value], t, 10))
  {
    var zero := FirstZero(digits);
    if zero.None? {
      return None;
    }
    var decimals := digits[..zero.value];
    var allowed: set<int>, mod: nat := {0}, 1;
    for decimal := 1 to 10
      invariant mod >= 1
      invariant forall d :: 1 <= d < decimal ==> Divides(2 * d + 1, mod)
      invariant forall t :: t in allowed <==> 0 <= t < mod && Avoids(decimals, t, decimal)
    {
      var m := decimal * 2 + 1;
      var forbidden := Forbidden(decimals, decimal, m);
      ghost var q' := NextModulus(mod, m);
      var q := m / Gcd(m, mod);
      forall d | 1 <= d < decimal
        ensures Divides(2 * d + 1, mod * q)
      {
        DividesTransitive(2 * d + 1, mod, mod * q);
      }
      SpreadExact(decimals, allowed, mod, q, decimal, m);
      var next := set time, i | time in allowed && 0 <= i < q
        && Shifted(time, i, mod) % m !in forbidden :: Shifted(time, i, mod);
      assert next == Spread(allowed, mod, q, m, forbidden);
      allowed, mod := next, mod * q;
    }
    return Some((allowed, mod));
  }

  /** t hits the residue that position j forbids modulo m exactly when
      m divides t + j + 1. */
  lemma ResidueMatch(t: int, j: int, m: int)
    requires m > 0
    ensures t % m == (-(j + 1)) % m <==> (t + j + 1) % m == 0
  {
    var a, b := t % m, (-(j + 1)) % m;
    var qa, qb := t / m, (-(j + 1)) / m;
    assert t + j + 1 == (qa - qb) * m + (a - b);
    if a == b {
      DivModUnique(t + j + 1, m, qa - qb, 0);
    } else if a > b {
      DivModUnique(t + j + 1, m, qa - qb, a - b);
    } else {
      assert t + j + 1 == (qa - qb - 1) * m + (m + a - b);
      DivModUnique(t + j + 1, m, qa - qb - 1, m + a - b);
    }
  }

  /** A time is kept by the sieve exactly when get_nb_axes, run on it,
      reaches the first zero of the digits: no earlier position stops it.
      The zero itself always stops it, since its modulus is 1. */
  lemma AllowedIffNoEarlyStop(digits: seq<int>, z: nat, t: int)
    requires DigitSeq(digits) && FirstZero(digits) == Some(z)
    ensures (t + z + 1) % (2 * digits[z] + 1) == 0
    ensures Avoids(digits[..z], t, 10) <==>
      forall n :: 0 <= n < z ==> (t + n + 1) % (2 * digits[n] + 1) != 0
  {
    var decimals := digits[..z];
    if Avoids(decimals, t, 10) {
      forall n | 0 <= n < z
        ensures (t + n + 1) % (2 * digits[n] + 1) != 0
      {
        var d := decimals[n];
        var m := 2 * d + 1;
        assert 1 <= d < 10;
        assert (-(n + 1)) % m in Forbidden(decimals, d, m);
        ResidueMatch(t, n, m);
      }
    }
    if forall n :: 0 <= n < z ==> (t + n + 1) % (2 * digits[n] + 1) != 0 {
      forall d | 1 <= d < 10
        ensures t % (2 * d + 1) !in Forbidden(decimals, d, 2 * d + 1)
      {
        var m := 2 * d + 1;
        if t % m in Forbidden(decimals, d, m) {
          var j :| 0 <= j < |decimals| && decimals[j] == d && t % m == (-(j + 1)) % m;
          ResidueMatch(t, j, m);
          assert false;
        }
      }
    }
  }
}
