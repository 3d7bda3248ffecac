/** gen_primes of "Une grande famille de couples": an incremental sieve.
    A dictionary maps each upcoming composite to the primes that will
    reach it next; a number missing from the dictionary is prime. The
    infinite generator becomes the primes it yields before reaching a
    limit. */
module PrimeSieve {
  import opened Numbers
  import opened Bezout
  import opened Combinatorics

  /** The smallest divisor of n that is at least k. */
  function SmallestDivisorFrom(n: nat, k: nat): (r: nat)
    requires 2 <= k <= n
    ensures k <= r <= n && n % r == 0
    ensures forall d :: k <= d < r ==> n % d != 0
    decreases n - k
  {
    if n % k == 0 then k else SmallestDivisorFrom(n, k + 1)
  }

  /** A number that is not prime has a prime factor whose square is at
      most the number. */
  lemma SmallestPrimeFactor(n: nat) returns (p: nat)
    requires n >= 2 && !IsPrime(n)
    ensures IsPrime(p) && Divides(p, n) && p * p <= n && p < n
  {
    p := SmallestDivisorFrom(n, 2);
    if p == n {
      assert false;
    }
    SmallestDivisorIsPrime(n, p);
    var c := n / p;
    CofactorAbove(n, p, c);
    MulMonotone(p, c, p);
  }

  /** The smallest divisor from 2 on is prime. */
  lemma SmallestDivisorIsPrime(n: nat, p: nat)
    requires 2 <= p <= n && n % p == 0
    requires forall d :: 2 <= d < p ==> n % d != 0
    ensures IsPrime(p)
  {
    forall d | 2 <= d < p
      ensures p % d != 0
    {
      if p % d == 0 {
        DividesTransitive(d, p, n);
      }
    }
  }

  /** The cofactor of the smallest divisor is at least that divisor. */
  lemma CofactorAbove(n: nat, p: nat, c: int)
    requires 2 <= p < n && n % p == 0 && c == n / p
    requires forall d :: 2 <= d < p ==> n % d != 0
    ensures n == p * c && c >= p
  {
    assert n == p * c;
    if c <= 1 {
      MulMonotone(c, 1, p);
    }
    DivModUnique(n, c, p, 0);
  }

  /** The first multiple of p from m on. */
  function RoundUp(m: int, p: nat): (r: int)
    requires p >= 1
    ensures r % p == 0 && m <= r < m + p
  {
    var q, k := m / p, m % p;
    if k == 0 then m
    else
      DivModUnique(p * (q + 1), p, q + 1, 0);
      m + (p - k)
  }

  /** The first multiple of the prime p that is at least n and at least
      p * p: where the sieve files p while it stands at n. */
  function NextMultiple(p: nat, n: nat): (r: nat)
    requires p >= 1
    ensures r % p == 0 && r >= n && r >= p * p
    ensures r < (if n < p * p then p * p else n) + p
  {
    RoundUp(if n < p * p then p * p else n, p)
  }

  /** Standing at n, a multiple below n is passed; moving on keeps the
      filed multiple unless it is n itself, which moves to n + p. */
  lemma NextMultipleStep(p: nat, n: nat)
    requires p >= 2 && n >= 1
    ensures NextMultiple(p, n) == n ==> NextMultiple(p, n + 1) == n + p
    ensures NextMultiple(p, n) != n ==> NextMultiple(p, n + 1) == NextMultiple(p, n)
  {
    var sq := p * p;
    MoveOn(p, sq, n, NextMultiple(p, n), NextMultiple(p, n + 1));
  }

  /** NextMultipleStep with the square as a plain number. */
  lemma MoveOn(p: nat, sq: int, n: int, r: int, s: int)
    requires p >= 1
    requires FirstFrom(p, if n < sq then sq else n, r)
    requires FirstFrom(p, if n + 1 < sq then sq else n + 1, s)
    ensures r == n ==> s == n + p
    ensures r != n ==> s == r
  {
    var m' := if n + 1 < sq then sq else n + 1;
    if r == n {
      ModShift(n, 1, p);
      FirstMultipleIs(p, m', s, n + p);
    } else {
      FirstMultipleIs(p, m', s, r);
    }
  }

  /** A new prime p is first filed under p * p. */
  lemma SquareFiled(p: nat)
    requires p >= 2
    ensures NextMultiple(p, p + 1) == p * p
  {
    var sq := p * p;
    MulMonotone(2, p, p);
    DivModUnique(sq, p, p, 0);
    FirstMultipleIs(p, sq, NextMultiple(p, p + 1), sq);
  }

  /** r is the first multiple of p from m on. */
  predicate FirstFrom(p: nat, m: int, r: int)
    requires p >= 1
  {
    r % p == 0 && m <= r < m + p
  }

  /** The first multiple from m on is unique. */
  lemma FirstMultipleIs(p: nat, m: int, r: int, r': int)
    requires p >= 1 && FirstFrom(p, m, r) && r' % p == 0 && m <= r' < m + p
    ensures r == r'
  {
    var a, b := r / p, r' / p;
    assert r == p * a && r' == p * b;
    if a < b {
      MulMonotone(a + 1, b, p);
    } else if b < a {
      MulMonotone(b + 1, a, p);
    }
  }

  /** The list filed under key k, or [] (composites.setdefault). */
  function Get(c: map<nat, seq<nat>>, k: nat): seq<nat>
  {
    if k in c then c[k] else []
  }

  /** The composite branch's loop: each prime filed under n is filed again
      under n + p. */
  function Refile(c: map<nat, seq<nat>>, n: nat, ps: seq<nat>): map<nat, seq<nat>>
    decreases |ps|
  {
    if ps == [] then c
    else
      var c1 := Refile(c, n, ps[..|ps| - 1]);
      var p := ps[|ps| - 1];
      c1[n + p := Get(c1, n + p) + [p]]
  }

  /** After refiling, p is filed under k exactly when it was already, or
      when it is one of the refiled primes and k == n + p. */
  lemma {:induction false} RefileMembers(c: map<nat, seq<nat>>, n: nat, ps: seq<nat>, k: nat, p: nat)
    ensures k in Refile(c, n, ps) && p in Refile(c, n, ps)[k]
      <==> (k in c && p in c[k]) || (p in ps && k == n + p)
    ensures k in Refile(c, n, ps) ==> k in c || exists q :: q in ps && k == n + q
    decreases |ps|
  {
    if ps != [] {
      var init := ps[..|ps| - 1];
      RefileMembers(c, n, init, k, p);
      assert ps == init + [ps[|ps| - 1]];
      var q := ps[|ps| - 1];
      assert q in ps;
      assert forall x :: x in init ==> x in ps;
    }
  }

  /** Every key is at least n, with a non-empty list. */
  predicate Keyed(c: map<nat, seq<nat>>, n: nat)
  {
    forall k :: k in c ==> k >= n && c[k] != []
  }

  /** Every filed prime is below n and filed under its next multiple. */
  predicate Listed(c: map<nat, seq<nat>>, n: nat)
  {
    forall k: nat, p: nat :: k in c && p in c[k] ==> IsPrime(p) && p < n && k == NextMultiple(p, n)
  }

  /** Every prime below n is filed under its next multiple. */
  predicate Covered(c: map<nat, seq<nat>>, n: nat)
  {
    forall p: nat :: IsPrime(p) && p < n ==> NextMultiple(p, n) in c && p in c[NextMultiple(p, n)]
  }

  predicate SieveInv(c: map<nat, seq<nat>>, n: nat)
  {
    n >= 2 && Keyed(c, n) && Listed(c, n) && Covered(c, n)
  }

  lemma SieveStart()
    ensures SieveInv(map[], 2)
  {
  }

  /** The sieve's test: n is a key exactly when it is not prime. */
  lemma KeyIffComposite(c: map<nat, seq<nat>>, n: nat)
    requires SieveInv(c, n)
    ensures n in c <==> !IsPrime(n)
  {
    if n in c {
      var p := c[n][0];
      assert p in c[n];
      assert IsPrime(p) && p < n && n == NextMultiple(p, n);
      assert n % p == 0;
    }
    if !IsPrime(n) {
      var p := SmallestPrimeFactor(n);
      var r := NextMultiple(p, n);
      assert r in c && p in c[r];
      FirstMultipleIs(p, n, r, n);
    }
  }

  /** The composite branch: refile every prime of n and drop n. */
  lemma CompositeStep(c: map<nat, seq<nat>>, n: nat)
    requires SieveInv(c, n) && n in c
    ensures SieveInv(Refile(c, n, c[n]) - {n}, n + 1)
  {
    CompositeKeyed(c, n);
    CompositeListed(c, n);
    CompositeCovered(c, n);
  }

  lemma CompositeKeyed(c: map<nat, seq<nat>>, n: nat)
    requires SieveInv(c, n) && n in c
    ensures Keyed(Refile(c, n, c[n]) - {n}, n + 1)
  {
    KeyIffComposite(c, n);
    var ps := c[n];
    var c' := Refile(c, n, ps) - {n};
    forall k | k in c'
      ensures k >= n + 1 && c'[k] != []
    {
      RefileMembers(c, n, ps, k, 0);
      if k in c {
        RefileMembers(c, n, ps, k, c[k][0]);
      } else {
        var q :| q in ps && k == n + q;
        RefileMembers(c, n, ps, k, q);
      }
    }
  }

  /** One entry after refiling: either it stays where it was, or it moved
      from n to n + p; both are its next multiple from n + 1. */
  lemma ListedRefiled(c: map<nat, seq<nat>>, n: nat, k: nat, p: nat)
    requires Listed(c, n) && n in c
    requires (k in c && p in c[k] && k != n) || (p in c[n] && k == n + p)
    ensures IsPrime(p) && p < n + 1 && k == NextMultiple(p, n + 1)
  {
    if k in c && p in c[k] && k != n {
      assert IsPrime(p) && p < n && k == NextMultiple(p, n);
    } else {
      assert IsPrime(p) && p < n && n == NextMultiple(p, n);
    }
    NextMultipleStep(p, n);
  }

  lemma CompositeListed(c: map<nat, seq<nat>>, n: nat)
    requires Listed(c, n) && n in c
    ensures Listed(Refile(c, n, c[n]) - {n}, n + 1)
  {
    var c' := Refile(c, n, c[n]) - {n};
    forall k: nat, p: nat | k in c' && p in c'[k]
      ensures IsPrime(p) && p < n + 1 && k == NextMultiple(p, n + 1)
    {
      ListedAfter(c, n, c', k, p);
    }
  }

  /** One entry of the refiled map. */
  lemma ListedAfter(c: map<nat, seq<nat>>, n: nat, c': map<nat, seq<nat>>, k: nat, p: nat)
    requires Listed(c, n) && n in c && c' == Refile(c, n, c[n]) - {n}
    requires k in c' && p in c'[k]
    ensures IsPrime(p) && p < n + 1 && k == NextMultiple(p, n + 1)
  {
    RefileMembers(c, n, c[n], k, p);
    ListedRefiled(c, n, k, p);
  }

  lemma CompositeCovered(c: map<nat, seq<nat>>, n: nat)
    requires SieveInv(c, n) && n in c
    ensures Covered(Refile(c, n, c[n]) - {n}, n + 1)
  {
    KeyIffComposite(c, n);
    var c' := Refile(c, n, c[n]) - {n};
    forall p: nat | IsPrime(p) && p < n + 1
      ensures NextMultiple(p, n + 1) in c' && p in c'[NextMultiple(p, n + 1)]
    {
      CoveredAfter(c, n, c', p);
    }
  }

  /** One prime after refiling: it sits under its next multiple from n + 1. */
  lemma CoveredAfter(c: map<nat, seq<nat>>, n: nat, c': map<nat, seq<nat>>, p: nat)
    requires n >= 2 && Covered(c, n) && n in c && !IsPrime(n) && c' == Refile(c, n, c[n]) - {n}
    requires IsPrime(p) && p < n + 1
    ensures NextMultiple(p, n + 1) in c' && p in c'[NextMultiple(p, n + 1)]
  {
    NextMultipleStep(p, n);
    var k := NextMultiple(p, n);
    if k == n {
      RefileMembers(c, n, c[n], n + p, p);
    } else {
      RefileMembers(c, n, c[n], k, p);
    }
  }

  /** The prime branch: n * n is not yet a key, and filing n under it
      keeps the invariant. */
  lemma PrimeStep(c: map<nat, seq<nat>>, n: nat)
    requires SieveInv(c, n) && n !in c
    ensures n * n !in c
    ensures SieveInv(c[n * n := [n]], n + 1)
  {
    KeyIffComposite(c, n);
    SquareNotKey(c, n);
    MulStrict(n, 1, n);
    PrimeStepKeyed(c, n);
    PrimeStepListed(c, n);
    PrimeStepCovered(c, n);
  }

  /** No smaller prime has n * n as its next multiple. */
  lemma SquareNotKey(c: map<nat, seq<nat>>, n: nat)
    requires SieveInv(c, n) && IsPrime(n)
    ensures n * n !in c
  {
    if n * n in c {
      var p := c[n * n][0];
      assert p in c[n * n];
      Euclid(p, n, n);
      assert false;
    }
  }

  lemma PrimeStepKeyed(c: map<nat, seq<nat>>, n: nat)
    requires Keyed(c, n) && n !in c && n * n > n
    ensures Keyed(c[n * n := [n]], n + 1)
  {
    var c' := c[n * n := [n]];
    forall k | k in c'
      ensures k >= n + 1 && c'[k] != []
    {
      if k != n * n {
        assert k in c;
      }
    }
  }

  lemma PrimeStepListed(c: map<nat, seq<nat>>, n: nat)
    requires Listed(c, n) && IsPrime(n) && n * n !in c
    ensures Listed(c[n * n := [n]], n + 1)
  {
    var c' := c[n * n := [n]];
    forall k: nat, p: nat | k in c' && p in c'[k]
      ensures IsPrime(p) && p < n + 1 && k == NextMultiple(p, n + 1)
    {
      PrimeListedAt(c, n, k, p);
    }
  }

  /** One entry after filing the prime n under n * n. */
  lemma PrimeListedAt(c: map<nat, seq<nat>>, n: nat, k: nat, p: nat)
    requires Listed(c, n) && IsPrime(n) && n * n !in c
    requires k in c[n * n := [n]] && p in c[n * n := [n]][k]
    ensures IsPrime(p) && p < n + 1 && k == NextMultiple(p, n + 1)
  {
    if k != n * n {
      assert k in c && p in c[k];
      assert IsPrime(p) && p < n && k == NextMultiple(p, n);
      NextMultipleStep(p, n);
    } else {
      SquareFiled(n);
    }
  }

  lemma PrimeStepCovered(c: map<nat, seq<nat>>, n: nat)
    requires SieveInv(c, n) && n !in c && n * n !in c && IsPrime(n)
    ensures Covered(c[n * n := [n]], n + 1)
  {
    var c' := c[n * n := [n]];
    forall p: nat | IsPrime(p) && p < n + 1
      ensures NextMultiple(p, n + 1) in c' && p in c'[NextMultiple(p, n + 1)]
    {
      if p < n {
        NextMultipleStep(p, n);
        assert NextMultiple(p, n) in c;
      } else {
        SquareFiled(n);
      }
    }
  }

  /** The primes yielded so far, before and after n is examined. */
  lemma PrimesFound(primes: seq<nat>, n: nat)
    requires StrictlyIncreasing(primes)
    requires forall q: nat :: q in primes <==> IsPrime(q) && q < n
    ensures IsPrime(n) ==> StrictlyIncreasing(primes + [n])
    ensures IsPrime(n) ==> forall q: nat :: q in primes + [n] <==> IsPrime(q) && q < n + 1
    ensures !IsPrime(n) ==> forall q: nat :: q in primes <==> IsPrime(q) && q < n + 1
  {
    assert forall i :: 0 <= i < |primes| ==> primes[i] in primes;
  }

  /** The loop of gen_primes's composite branch: each prime p filed under n
      is appended to the list under n + p, which setdefault creates when
      missing. */
  method RefileAll(c: map<nat, seq<nat>>, n: nat, ps: seq<nat>) returns (r: map<nat, seq<nat>>)
    ensures r == Refile(c, n, ps)
  {
    r := c;
    for i := 0 to |ps|
      invariant r == Refile(c, n, ps[..i])
    {
      var p := ps[i];
      assert ps[..i + 1][..i] == ps[..i];
      r := r[n + p := Get(r, n + p) + [p]];
    }
    assert ps[..|ps|] == ps;
  }

  /** gen_primes, run until it reaches `limit`: the primes below the limit,
      in increasing order. */
  method GenPrimes(limit: nat) returns (primes: seq<nat>)
    ensures StrictlyIncreasing(primes)
    ensures forall q: nat :: q in primes <==> IsPrime(q) && q < limit
  {
    var composites: map<nat, seq<nat>> := map[];
    primes := [];
    var n := 2;
    SieveStart();
    while n < limit
      invariant SieveInv(composites, n)
      invariant StrictlyIncreasing(primes)
      invariant forall q: nat :: q in primes <==> IsPrime(q) && q < n
      invariant n <= limit || n == 2
    {
      KeyIffComposite(composites, n);
      PrimesFound(primes, n);
      if n !in composites {
        PrimeStep(composites, n);
        primes := primes + [n];
        composites := composites[n * n := [n]];
      } else {
        CompositeStep(composites, n);
        composites := RefileAll(composites, n, composites[n]);
        composites := composites - {n};
      }
      n := n + 1;
    }
  }
}
