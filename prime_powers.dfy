/** gen_prime_powers of "Une grande famille de couples": a heap holds, for
    every prime met so far, its first power not yet yielded; the smallest is
    yielded and replaced by the next power of its prime while it is below
    the next prime. The infinite generator becomes the powers it yields
    before the primes reach a limit. */
module PrimePowers {
  import opened Numbers
  import opened Bezout
  import opened Combinatorics
  import opened PrimeSieve

  /** v == p^k for a prime p and k >= 1. */
  ghost predicate IsPrimePower(v: int)
  {
    exists p: nat, k: nat :: IsPrime(p) && k >= 1 && Pow(p, k) == v
  }

  /** The primes below `limit`, in increasing order: what gen_primes yields
      before reaching the limit. */
  ghost predicate PrimesBelow(primes: seq<nat>, limit: nat)
  {
    StrictlyIncreasing(primes) && forall q: nat :: q in primes <==> IsPrime(q) && q < limit
  }

  /** A higher exponent gives a higher power. */
  lemma {:induction false} PowExponentStrict(p: nat, k: nat, e: nat)
    requires p >= 2 && k < e
    ensures Pow(p, k) < Pow(p, e)
    decreases e
  {
    PowPositive(p, e - 1);
    MulMonotone(2, p, Pow(p, e - 1));
    if k < e - 1 {
      PowExponentStrict(p, k, e - 1);
    }
  }

  /** The entry with the smallest power: the head powers[0] of the binary
      heap. */
  function MinIndex(heap: seq<(nat, nat)>): (m: nat)
    requires heap != []
    ensures m < |heap| && forall j :: 0 <= j < |heap| ==> heap[m].0 <= heap[j].0
  {
    if |heap| == 1 then 0
    else
      var m := MinIndex(heap[..|heap| - 1]);
      if heap[|heap| - 1].0 < heap[m].0 then |heap| - 1 else m
  }

  /** The state of gen_prime_powers once primes[..i] have been pushed: the
      entry of primes[j] holds (p^e, p) where e = exps[j] >= 1 and p^e is
      the first power of p at or above `lo`; the yielded powers are, in
      increasing order, exactly the prime powers below `lo`. */
  ghost predicate Heap(primes: seq<nat>, i: nat, heap: seq<(nat, nat)>, exps: seq<nat>, ys: seq<nat>, lo: nat)
  {
    i <= |primes| && |heap| == i && |exps| == i
    && (forall j :: 0 <= j < i ==>
          exps[j] >= 1 && heap[j] == (Pow(primes[j], exps[j]), primes[j])
          && Pow(primes[j], exps[j]) >= lo && Pow(primes[j], exps[j] - 1) < lo)
    && StrictlyIncreasing(ys)
    && forall v: nat :: v in ys <==> IsPrimePower(v) && v < lo
  }

  /** A prime below primes[i] comes earlier in the list. */
  lemma PrimeIndex(primes: seq<nat>, limit: nat, i: nat, q: nat) returns (j: nat)
    requires PrimesBelow(primes, limit) && i < |primes| && IsPrime(q) && q < primes[i]
    ensures j < i && primes[j] == q
  {
    assert primes[i] in primes;
    j :| 0 <= j < |primes| && primes[j] == q;
    if j >= i {
      assert false;
    }
  }

  /** No power of q lies in [lo, hi) when q^(e-1) < lo and q^e >= hi. */
  lemma Skipped(q: nat, k: nat, e: nat, lo: int, hi: int)
    requires q >= 2 && e >= 1 && Pow(q, e - 1) < lo && Pow(q, e) >= hi
    ensures Pow(q, k) < lo || Pow(q, k) >= hi
  {
    if k < e - 1 {
      PowExponentStrict(q, k, e - 1);
    } else if k > e {
      PowExponentStrict(q, e, k);
    }
  }

  /** When every entry is at least hi, with hi at most the next prime, no
      prime power lies in [lo, hi): the yielded powers are the prime powers
      below hi. */
  lemma Raise(primes: seq<nat>, limit: nat, i: nat, heap: seq<(nat, nat)>, exps: seq<nat>, ys: seq<nat>, lo: nat, hi: nat)
    requires PrimesBelow(primes, limit) && i < |primes| && Heap(primes, i, heap, exps, ys, lo)
    requires lo <= hi <= primes[i]
    requires forall j :: 0 <= j < i ==> heap[j].0 >= hi
    ensures Heap(primes, i, heap, exps, ys, hi)
  {
    forall v: nat | IsPrimePower(v) && v < hi
      ensures v in ys
    {
      var q: nat, k: nat :| IsPrime(q) && k >= 1 && Pow(q, k) == v;
      PowAtLeastBase(q, k);
      var j := PrimeIndex(primes, limit, i, q);
      Skipped(q, k, exps[j], lo, hi);
    }
  }

  /** Yielding the smallest entry, equal to lo, and replacing it by the
      next power of its prime. */
  lemma Pop(primes: seq<nat>, limit: nat, i: nat, heap: seq<(nat, nat)>, exps: seq<nat>, ys: seq<nat>, m: nat)
    requires PrimesBelow(primes, limit) && m < i && |heap| == i
    requires Heap(primes, i, heap, exps, ys, heap[m].0)
    ensures Heap(primes, i, heap[m := (heap[m].0 * heap[m].1, heap[m].1)], exps[m := exps[m] + 1], ys + [heap[m].0], heap[m].0 + 1)
  {
    var (w, p) := heap[m];
    var heap', exps' := heap[m := (w * p, p)], exps[m := exps[m] + 1];
    assert primes[m] in primes;
    forall j | 0 <= j < i
      ensures Pow(primes[j], exps'[j]) >= w + 1 && Pow(primes[j], exps'[j] - 1) < w + 1
    {
      assert primes[j] in primes;
      if j == m {
        assert Pow(p, exps'[j]) == p * w;
        MulMonotone(2, p, w);
      } else if Pow(primes[j], exps[j]) == w {
        PrimePowerUnique(primes[j], exps[j], p, exps[m]);
        assert false;
      }
    }
    assert IsPrime(p) && Pow(p, exps[m]) == w;
    forall v: nat | v in ys + [w]
      ensures IsPrimePower(v) && v < w + 1
    {
      if v != w {
        assert v in ys;
      }
    }
    forall a, b | 0 <= a < b < |ys + [w]|
      ensures (ys + [w])[a] < (ys + [w])[b]
    {
      assert ys[a] in ys;
    }
  }

  /** Pushing (P, P) for the next prime P once every entry is at least P. */
  lemma Push(primes: seq<nat>, limit: nat, i: nat, heap: seq<(nat, nat)>, exps: seq<nat>, ys: seq<nat>)
    requires PrimesBelow(primes, limit) && i < |primes| && Heap(primes, i, heap, exps, ys, primes[i])
    ensures Heap(primes, i + 1, heap + [(primes[i], primes[i])], exps + [1], ys, primes[i])
  {
    assert primes[i] in primes;
    assert Pow(primes[i], 1) == primes[i];
  }

  /** A prime power is at least 2. */
  lemma PrimePowerAtLeastTwo(v: int)
    requires IsPrimePower(v)
    ensures v >= 2
  {
    var q: nat, k: nat :| IsPrime(q) && k >= 1 && Pow(q, k) == v;
    PowAtLeastBase(q, k);
  }

  /** Before the first prime, nothing is yielded: no prime power is below
      2. */
  lemma HeapStart(primes: seq<nat>)
    ensures Heap(primes, 0, [], [], [], 2)
  {
    forall v: nat | IsPrimePower(v)
      ensures v >= 2
    {
      PrimePowerAtLeastTwo(v);
    }
  }

  /** In an increasing sequence holding x and x + 1, x + 1 comes right
      after x. */
  lemma Successor(ys: seq<nat>, a: nat, x: nat)
    requires StrictlyIncreasing(ys) && a < |ys| && ys[a] == x && x + 1 in ys
    ensures a + 1 < |ys| && ys[a + 1] == x + 1
  {
    var j :| 0 <= j < |ys| && ys[j] == x + 1;
  }

  /** Every prime power below `bound`, in increasing order, begins with
      2, 3, 4, 5 once the bound passes 5. */
  lemma FirstPrimePowers(ys: seq<nat>, bound: nat)
    requires StrictlyIncreasing(ys) && bound > 5
    requires forall v: nat :: v in ys <==> IsPrimePower(v) && v < bound
    ensures |ys| >= 4 && ys[..4] == [2, 3, 4, 5]
  {
    assert IsPrime(2) && Pow(2, 1) == 2 && Pow(2, 2) == 4;
    assert IsPrime(3) && Pow(3, 1) == 3;
    assert IsPrime(5) && Pow(5, 1) == 5;
    assert IsPrimePower(2) && IsPrimePower(3) && IsPrimePower(4) && IsPrimePower(5);
    assert 2 in ys;
    var a :| 0 <= a < |ys| && ys[a] == 2;
    if a > 0 {
      assert ys[0] in ys;
      PrimePowerAtLeastTwo(ys[0]);
    }
    Successor(ys, 0, 2);
    Successor(ys, 1, 3);
    Successor(ys, 2, 4);
  }

  /** Every prime below the limit is at least 2. */
  lemma PrimesInRange(primes: seq<nat>, limit: nat)
    requires PrimesBelow(primes, limit)
    ensures forall j :: 0 <= j < |primes| ==> 2 <= primes[j] < limit
  {
    forall j | 0 <= j < |primes|
      ensures 2 <= primes[j] < limit
    {
      assert primes[j] in primes;
    }
  }

  /** The last prime below the limit, when there is one. */
  lemma LastPrime(primes: seq<nat>, limit: nat)
    requires PrimesBelow(primes, limit) && limit > 2
    ensures primes != [] && IsPrime(primes[|primes| - 1]) && primes[|primes| - 1] < limit
    ensures forall q: nat :: primes[|primes| - 1] < q < limit ==> !IsPrime(q)
  {
    assert IsPrime(2);
    assert 2 in primes;
    var last := primes[|primes| - 1];
    assert last in primes;
    forall q: nat | last < q < limit && IsPrime(q)
      ensures false
    {
      var j :| 0 <= j < |primes| && primes[j] == q;
    }
  }

  /** The inner loop of gen_prime_powers for the next prime P: while the
      smallest entry (q^e, q) is below P, yield q^e and replace the entry
      by (q^(e+1), q). Afterwards every entry is at least P and the powers
      yielded are exactly the prime powers below P. */
  method YieldBelow(ghost primes: seq<nat>, ghost limit: nat, ghost i: nat, heap: seq<(nat, nat)>,
                    ghost exps: seq<nat>, powers: seq<nat>, nextPrime: nat, ghost lo: nat)
    returns (heap': seq<(nat, nat)>, ghost exps': seq<nat>, powers': seq<nat>)
    requires PrimesBelow(primes, limit) && i < |primes| && nextPrime == primes[i]
    requires Heap(primes, i, heap, exps, powers, lo) && lo <= nextPrime
    ensures Heap(primes, i, heap', exps', powers', nextPrime)
  {
    heap', exps', powers' := heap, exps, powers;
    ghost var lo' := lo;
    while heap' != [] && heap'[MinIndex(heap')].0 < nextPrime
      invariant Heap(primes, i, heap', exps', powers', lo')
      invariant lo' <= nextPrime
      decreases nextPrime - lo'
    {
      var m := MinIndex(heap');
      var (power, prime) := heap'[m];
      Raise(primes, limit, i, heap', exps', powers', lo', power);
      Pop(primes, limit, i, heap', exps', powers', m);
      powers' := powers' + [power];
      heap' := heap'[m := (power * prime, prime)];
      exps' := exps'[m := exps'[m] + 1];
      lo' := power + 1;
    }
    Raise(primes, limit, i, heap', exps', powers', lo', nextPrime);
  }

  /** gen_prime_powers, run on the primes below `limit`. `reached` is the
      last prime taken from gen_primes (2 when there is none): the powers
      are every prime power below it, in increasing order. */
  method GenPrimePowers(limit: nat) returns (powers: seq<nat>, reached: nat)
    ensures StrictlyIncreasing(powers)
    ensures forall v: nat :: v in powers <==> IsPrimePower(v) && v < reached
    ensures reached >= 2 && (limit > 2 ==> IsPrime(reached) && reached < limit)
    ensures limit <= 2 ==> reached == 2
    ensures forall q: nat :: reached < q < limit ==> !IsPrime(q)
  {
    var primes := GenPrimes(limit);
    PrimesInRange(primes, limit);
    var heap: seq<(nat, nat)> := [];
    ghost var exps: seq<nat> := [];
    powers := [];
    reached := 2;
    HeapStart(primes);
    var i := 0;
    while i < |primes|
      invariant i <= |primes|
      invariant Heap(primes, i, heap, exps, powers, reached)
      invariant i == 0 ==> reached == 2
      invariant i > 0 ==> reached == primes[i - 1]
    {
      var nextPrime := primes[i];
      assert nextPrime in primes;
      if i > 0 {
        assert primes[i - 1] < nextPrime;
      }
      heap, exps, powers := YieldBelow(primes, limit, i, heap, exps, powers, nextPrime, reached);
      Push(primes, limit, i, heap, exps, powers);
      heap := heap + [(nextPrime, nextPrime)];
      exps := exps + [1];
      reached := nextPrime;
      i := i + 1;
    }
    if limit > 2 {
      LastPrime(primes, limit);
    }
  }
}
