/** "Sorcières mathématiciennes": the cats of a witch are the parts of a
    partition of the bus number; a signature (product, count, sum, sum of
    squares, ...) identifies them unless two partitions share it. */
module Witches {
  import opened Numbers
  import opened Sorting
  import opened Options

  // ---------------------------------------------------------------------
  // Partitions.

  /** The sum of a tuple. */
  function Total(s: seq<int>): int
  {
    if s == [] then 0 else s[0] + Total(s[1..])
  }

  /** t is a partition of n with parts at least m, written in
      non-decreasing order. */
  predicate Partition(t: seq<int>, n: int, m: int)
  {
    t != [] && Ascending(t) && (forall i :: 0 <= i < |t| ==> t[i] >= m) && Total(t) == n
  }

  /** Each tuple of ts with c in front. */
  function Prepend(c: int, ts: seq<seq<int>>): (r: seq<seq<int>>)
    ensures |r| == |ts| && forall i :: 0 <= i < |ts| ==> r[i] == [c] + ts[i]
  {
    if ts == [] then [] else [[c] + ts[0]] + Prepend(c, ts[1..])
  }

  /** gen_sums(n, m): the partitions of n with parts at least m, in the
      order the generator yields them. m >= 1, as every call of the
      source has it (with m <= 0 the recursion would not end). */
  function GenSums(n: int, m: int): seq<seq<int>>
    requires m >= 1
    decreases n, 1, 0
  {
    if m > n then [] else Choices(n, m) + [[n]]
  }

  /** The iterations c, c + 1, ..., n // 2 of the outer loop of gen_sums. */
  function Choices(n: int, c: int): seq<seq<int>>
    requires c >= 1
    decreases n, 0, n / 2 + 1 - c
  {
    if c > n / 2 then [] else Prepend(c, GenSums(n - c, c)) + Choices(n, c + 1)
  }

  /** A tuple of parts at least c >= 1 with two or more parts sums to at
      least 2c; one part sums to at least c. */
  lemma {:induction false} TotalAtLeast(t: seq<int>, c: int)
    requires c >= 1 && t != [] && forall i :: 0 <= i < |t| ==> t[i] >= c
    ensures Total(t) >= c && (|t| >= 2 ==> Total(t) >= 2 * c)
  {
    if |t| > 1 {
      TotalAtLeast(t[1..], c);
    }
  }

  /** Everything gen_sums yields is a partition of n with parts >= m. */
  lemma {:induction false} GenSumsSound(n: int, m: int, t: seq<int>)
    requires m >= 1 && t in GenSums(n, m)
    ensures Partition(t, n, m)
    decreases n, 1, 0
  {
    if t != [n] {
      ChoicesSound(n, m, t);
    }
  }

  /** What the loop iterations from c on yield: partitions of n with at
      least two parts, the first between c and n // 2. */
  lemma {:induction false} ChoicesSound(n: int, c: int, t: seq<int>)
    requires c >= 1 && t in Choices(n, c)
    ensures Partition(t, n, c) && |t| >= 2 && c <= t[0] <= n / 2
    decreases n, 0, n / 2 + 1 - c
  {
    var head := Prepend(c, GenSums(n - c, c));
    if t in head {
      var i :| 0 <= i < |head| && head[i] == t;
      var rest := GenSums(n - c, c)[i];
      GenSumsSound(n - c, c, rest);
      assert t == [c] + rest && t[1..] == rest;
      assert Ascending(t) by {
        forall a, b | 0 <= a < b < |t|
          ensures t[a] <= t[b]
        {
          if a > 0 {
            assert t[a] == rest[a - 1] && t[b] == rest[b - 1];
          } else {
            assert t[b] == rest[b - 1];
          }
        }
      }
      assert forall k :: 0 <= k < |t| ==> t[k] >= c by {
        forall k | 0 <= k < |t|
          ensures t[k] >= c
        {
          if k > 0 {
            assert t[k] == rest[k - 1];
          }
        }
      }
    } else {
      ChoicesSound(n, c + 1, t);
    }
  }

  /** Every partition of n with parts >= m is yielded by gen_sums. */
  lemma {:induction false} GenSumsComplete(n: int, m: int, t: seq<int>)
    requires m >= 1 && Partition(t, n, m)
    ensures t in GenSums(n, m)
    decreases n, 1
  {
    TotalAtLeast(t, m);
    if |t| == 1 {
      assert Total(t) == t[0];
      assert t == [n];
    } else {
      var c, rest := t[0], t[1..];
      TailPartition(t, n, m);
      GenSumsComplete(n - c, c, rest);
      ChoicesContain(n, m, c, rest);
      assert t == [c] + rest;
      assert GenSums(n, m) == Choices(n, m) + [[n]];
    }
  }

  /** Without its first part c, a partition of n with two or more parts is
      a partition of n - c with parts at least c, and c <= n // 2. */
  lemma TailPartition(t: seq<int>, n: int, m: int)
    requires m >= 1 && Partition(t, n, m) && |t| >= 2
    ensures Partition(t[1..], n - t[0], t[0]) && m <= t[0] <= n / 2
  {
    var c, rest := t[0], t[1..];
    assert t == [c] + rest;
    assert Total(t) == c + Total(rest);
    assert forall k :: 0 <= k < |rest| ==> rest[k] >= c by {
      forall k | 0 <= k < |rest|
        ensures rest[k] >= c
      {
        assert rest[k] == t[k + 1];
      }
    }
    TotalAtLeast(rest, c);
    assert Ascending(rest) by {
      forall a, b | 0 <= a < b < |rest|
        ensures rest[a] <= rest[b]
      {
        assert rest[a] == t[a + 1] && rest[b] == t[b + 1];
      }
    }
  }

  /** [c] + rest is yielded by the iterations from d on when d <= c <= n // 2
      and rest is among the partitions of n - c with parts >= c. */
  lemma {:induction false} ChoicesContain(n: int, d: int, c: int, rest: seq<int>)
    requires 1 <= d <= c <= n / 2 && rest in GenSums(n - c, c)
    ensures [c] + rest in Choices(n, d)
    decreases c - d
  {
    if d == c {
      var i :| 0 <= i < |GenSums(n - c, c)| && GenSums(n - c, c)[i] == rest;
      assert Prepend(c, GenSums(n - c, c))[i] == [c] + rest;
    } else {
      ChoicesContain(n, d + 1, c, rest);
    }
  }

  /** No tuple appears twice. */
  predicate Distinct(ts: seq<seq<int>>)
  {
    forall i, j :: 0 <= i < j < |ts| ==> ts[i] != ts[j]
  }

  lemma DistinctConcat(a: seq<seq<int>>, b: seq<seq<int>>)
    requires Distinct(a) && Distinct(b) && forall t :: t in a ==> t !in b
    ensures Distinct(a + b)
  {
    forall i, j | 0 <= i < j < |a + b|
      ensures (a + b)[i] != (a + b)[j]
    {
      if j >= |a| && i < |a| {
        assert (a + b)[i] in a && (a + b)[j] in b;
      }
    }
  }

  lemma PrependDistinct(c: int, ts: seq<seq<int>>)
    requires Distinct(ts)
    ensures Distinct(Prepend(c, ts))
  {
    var r := Prepend(c, ts);
    forall i, j | 0 <= i < j < |r|
      ensures r[i] != r[j]
    {
      assert r[i][1..] == ts[i] && r[j][1..] == ts[j];
    }
  }

  /** gen_sums yields each partition once. */
  lemma {:induction false} GenSumsDistinct(n: int, m: int)
    requires m >= 1
    ensures Distinct(GenSums(n, m))
    decreases n, 1, 0
  {
    if m <= n {
      ChoicesDistinct(n, m);
      forall t | t in Choices(n, m)
        ensures t !in [[n]]
      {
        ChoicesSound(n, m, t);
      }
      DistinctConcat(Choices(n, m), [[n]]);
    }
  }

  lemma {:induction false} ChoicesDistinct(n: int, c: int)
    requires c >= 1
    ensures Distinct(Choices(n, c))
    decreases n, 0, n / 2 + 1 - c
  {
    if c <= n / 2 {
      var head := Prepend(c, GenSums(n - c, c));
      GenSumsDistinct(n - c, c);
      PrependDistinct(c, GenSums(n - c, c));
      ChoicesDistinct(n, c + 1);
      forall t | t in head
        ensures t !in Choices(n, c + 1)
      {
        var i :| 0 <= i < |head| && head[i] == t;
        assert t[0] == c;
        if t in Choices(n, c + 1) {
          ChoicesSound(n, c + 1, t);
          assert false;
        }
      }
      DistinctConcat(head, Choices(n, c + 1));
    }
  }

  /** gen_sums yields exactly the partitions of n with parts >= m, each
      once, and nothing when m > n. */
  lemma GenSumsExactly(n: int, m: int)
    requires m >= 1
    ensures forall t :: t in GenSums(n, m) <==> Partition(t, n, m)
    ensures Distinct(GenSums(n, m))
    ensures m > n ==> GenSums(n, m) == []
  {
    forall t
      ensures t in GenSums(n, m) <==> Partition(t, n, m)
    {
      if t in GenSums(n, m) {
        GenSumsSound(n, m, t);
      }
      if Partition(t, n, m) {
        GenSumsComplete(n, m, t);
      }
    }
    GenSumsDistinct(n, m);
  }

  // ---------------------------------------------------------------------
  // product and get_signature.

  /** The product of a tuple. */
  function Prod(s: seq<int>): int
  {
    if s == [] then 1 else s[0] * Prod(s[1..])
  }

  lemma {:induction false} ProdSnoc(s: seq<int>, x: int)
    ensures Prod(s + [x]) == Prod(s) * x
  {
    if s != [] {
      assert (s + [x])[1..] == s[1..] + [x];
      ProdSnoc(s[1..], x);
      assert s[0] * (Prod(s[1..]) * x) == (s[0] * Prod(s[1..])) * x;
    }
  }

  /** product(cats): the running product p *= cat over the tuple. */
  method Product(cats: seq<int>) returns (p: int)
    ensures p == Prod(cats)
  {
    p := 1;
    var i := 0;
    while i < |cats|
      invariant 0 <= i <= |cats|
      invariant p == Prod(cats[..i])
    {
      ProdSnoc(cats[..i], cats[i]);
      assert cats[..i + 1] == cats[..i] + [cats[i]];
      p := p * cats[i];
      i := i + 1;
    }
    assert cats[..i] == cats;
  }

  /** The sum of cat ** e over the tuple. */
  function PowerSum(cats: seq<int>, e: nat): int
  {
    if cats == [] then 0 else Pow(cats[0], e) + PowerSum(cats[1..], e)
  }

  /** get_signature(cats, max_exp): the product, then the sums of cat ** e
      for e = 0 .. max_exp. */
  function Signature(cats: seq<int>, maxExp: int): (r: seq<int>)
    ensures |r| == if maxExp >= 0 then maxExp + 2 else 1
  {
    [Prod(cats)] + seq(if maxExp >= 0 then maxExp + 1 else 0, e requires e >= 0 => PowerSum(cats, e))
  }

  lemma {:induction false} PowerSumZero(cats: seq<int>)
    ensures PowerSum(cats, 0) == |cats|
  {
    if cats != [] {
      PowerSumZero(cats[1..]);
    }
  }

  lemma {:induction false} PowerSumOne(cats: seq<int>)
    ensures PowerSum(cats, 1) == Total(cats)
  {
    if cats != [] {
      PowerSumOne(cats[1..]);
      assert Pow(cats[0], 1) == cats[0] * Pow(cats[0], 0);
    }
  }

  /** The signature reads (age, count, bus, dragons, ...): the product of
      the cats, their number, their sum, then the sums of higher powers. */
  lemma SignatureEntries(cats: seq<int>, maxExp: int)
    ensures Signature(cats, maxExp)[0] == Prod(cats)
    ensures maxExp >= 0 ==> Signature(cats, maxExp)[1] == |cats|
    ensures maxExp >= 1 ==> Signature(cats, maxExp)[2] == Total(cats)
    ensures forall e :: 0 <= e <= maxExp ==> Signature(cats, maxExp)[e + 1] == PowerSum(cats, e)
  {
    PowerSumZero(cats);
    PowerSumOne(cats);
  }

  // ---------------------------------------------------------------------
  // get_solutions.

  /** The tuples of ps with signature s, in order. */
  function Sharing(ps: seq<seq<int>>, s: seq<int>, maxExp: int): seq<seq<int>>
  {
    if ps == [] then []
    else (if Signature(ps[0], maxExp) == s then [ps[0]] else []) + Sharing(ps[1..], s, maxExp)
  }

  /** The signatures of the tuples of ps. */
  function Signatures(ps: seq<seq<int>>, maxExp: int): set<seq<int>>
  {
    set t | t in ps :: Signature(t, maxExp)
  }

  /** get_solutions(bus, max_exp) as a value: every signature shared by at
      least two partitions of bus, mapped to those partitions. */
  function Solutions(bus: int, maxExp: int): map<seq<int>, seq<seq<int>>>
  {
    var ps := GenSums(bus, 1);
    map s | s in Signatures(ps, maxExp) && |Sharing(ps, s, maxExp)| > 1 :: Sharing(ps, s, maxExp)
  }

  lemma {:induction false} SharingSnoc(ps: seq<seq<int>>, t: seq<int>, s: seq<int>, maxExp: int)
    ensures Sharing(ps + [t], s, maxExp) ==
      Sharing(ps, s, maxExp) + (if Signature(t, maxExp) == s then [t] else [])
  {
    if ps != [] {
      assert (ps + [t])[1..] == ps[1..] + [t];
      SharingSnoc(ps[1..], t, s, maxExp);
    }
  }

  /** Sharing keeps exactly the tuples with the given signature. */
  lemma {:induction false} SharingMembers(ps: seq<seq<int>>, s: seq<int>, maxExp: int)
    ensures forall t :: t in Sharing(ps, s, maxExp) <==> t in ps && Signature(t, maxExp) == s
  {
    if ps != [] {
      SharingMembers(ps[1..], s, maxExp);
      assert ps == [ps[0]] + ps[1..];
    }
  }

  /** No tuple of ps has a signature outside Signatures(ps). */
  lemma {:induction false} SharingEmpty(ps: seq<seq<int>>, s: seq<int>, maxExp: int)
    requires s !in Signatures(ps, maxExp)
    ensures Sharing(ps, s, maxExp) == []
  {
    if ps != [] {
      assert ps[0] in ps;
      assert Signatures(ps[1..], maxExp) <= Signatures(ps, maxExp) by {
        forall u | u in Signatures(ps[1..], maxExp)
          ensures u in Signatures(ps, maxExp)
        {
          var t :| t in ps[1..] && Signature(t, maxExp) == u;
          assert t in ps;
        }
      }
      SharingEmpty(ps[1..], s, maxExp);
    }
  }

  /** The dictionary sorted_cats after the first tuples ps: each signature
      seen, with the list of its tuples. */
  ghost predicate Grouped(sorted: map<seq<int>, seq<seq<int>>>, ps: seq<seq<int>>, maxExp: int)
  {
    (forall s :: s in sorted <==> s in Signatures(ps, maxExp)) &&
    forall s :: s in sorted ==> sorted[s] == Sharing(ps, s, maxExp)
  }

  lemma GroupStep(sorted: map<seq<int>, seq<seq<int>>>, ps: seq<seq<int>>, t: seq<int>, maxExp: int)
    requires Grouped(sorted, ps, maxExp)
    ensures Grouped(sorted[Signature(t, maxExp) :=
      (if Signature(t, maxExp) in sorted then sorted[Signature(t, maxExp)] else []) + [t]], ps + [t], maxExp)
  {
    var sig := Signature(t, maxExp);
    var next := sorted[sig := (if sig in sorted then sorted[sig] else []) + [t]];
    assert Signatures(ps + [t], maxExp) == Signatures(ps, maxExp) + {sig};
    forall s | s in next
      ensures next[s] == Sharing(ps + [t], s, maxExp)
    {
      SharingSnoc(ps, t, s, maxExp);
      if s == sig && sig !in sorted {
        SharingEmpty(ps, s, maxExp);
      }
    }
  }

  /** get_solutions(bus, max_exp): sort the partitions of bus by signature,
      then keep the signatures shared by more than one. */
  method GetSolutions(bus: int, maxExp: int) returns (sols: map<seq<int>, seq<seq<int>>>)
    ensures sols == Solutions(bus, maxExp)
  {
    var ps := GenSums(bus, 1);
    var sorted: map<seq<int>, seq<seq<int>>> := map[];
    var i := 0;
    while i < |ps|
      invariant 0 <= i <= |ps|
      invariant Grouped(sorted, ps[..i], maxExp)
    {
      GroupStep(sorted, ps[..i], ps[i], maxExp);
      assert ps[..i + 1] == ps[..i] + [ps[i]];
      var sig := Signature(ps[i], maxExp);
      sorted := sorted[sig := (if sig in sorted then sorted[sig] else []) + [ps[i]]];
      i := i + 1;
    }
    assert ps[..i] == ps;
    sols := map s | s in sorted && |sorted[s]| > 1 :: sorted[s];
  }

  /** The solutions of a bus number are the signatures shared by at least
      two of its partitions, each with all of its partitions. */
  lemma SolutionsMeaning(bus: int, maxExp: int, s: seq<int>)
    ensures s in Solutions(bus, maxExp) <==> |Sharing(GenSums(bus, 1), s, maxExp)| >= 2
    ensures s in Solutions(bus, maxExp) ==> Solutions(bus, maxExp)[s] == Sharing(GenSums(bus, 1), s, maxExp)
    ensures forall t :: t in Sharing(GenSums(bus, 1), s, maxExp) <==> Partition(t, bus, 1) && Signature(t, maxExp) == s
  {
    var ps := GenSums(bus, 1);
    SharingMembers(ps, s, maxExp);
    GenSumsExactly(bus, 1);
    if |Sharing(ps, s, maxExp)| >= 2 {
      assert Sharing(ps, s, maxExp)[0] in Sharing(ps, s, maxExp);
    }
  }

  /** Bus number 1 has a single partition, hence no solution. */
  lemma NoSolutionForOne(maxExp: int)
    ensures Solutions(1, maxExp) == map[]
  {
    var ps := GenSums(1, 1);
    assert ps == [[1]] && ps[1..] == [];
    forall s
      ensures |Sharing(ps, s, maxExp)| <= 1
    {
      assert Sharing(ps, s, maxExp) == (if Signature([1], maxExp) == s then [[1]] else []) + Sharing([], s, maxExp);
    }
    assert Solutions(1, maxExp).Keys == {};
  }

  // ---------------------------------------------------------------------
  // bisect and solve.

  /** What bisect ends with: an index, the failed assertion on low, or the
      doubling search for high out of steps. */
  datatype Bisected = Found(index: int) | Refused | Unbounded

  /** A predicate that stays true once it holds. */
  ghost predicate Monotone(p: int -> bool)
  {
    forall x, y :: x <= y && p(x) ==> p(y)
  }

  /** bisect(predicate, low, high): double high until the predicate holds,
      then halve [low, high] keeping it false at low and true at high.
      fuel bounds the doubling rounds. */
  method Bisect(p: int -> bool, low: int, high: Option<int>, fuel: nat) returns (r: Bisected)
    ensures r.Refused? <==> p(low)
    ensures r.Found? && (high.None? || (p(high.value) && high.value > low)) ==>
      low < r.index && p(r.index) && !p(r.index - 1)
    ensures r.Found? && high.None? && Monotone(p) ==>
      forall x :: x < r.index ==> !p(x)
    ensures r.Unbounded? ==> high.None?
  {
    if p(low) {
      return Refused;
    }
    var lo, hi := low, 0;
    if high.None? {
      hi := low * 2;
      var k := 0;
      while !p(hi)
        invariant k <= fuel
        decreases fuel - k
      {
        if k == fuel {
          return Unbounded;
        }
        hi := hi * 2;
        k := k + 1;
      }
      if hi <= lo {
        // With low <= 0 the doubling never rises above low.
        return Unbounded;
      }
    } else {
      hi := high.value;
    }
    ghost var bounded := high.None? || (p(high.value) && high.value > low);
    while lo + 1 < hi
      invariant !p(lo) && low <= lo
      invariant bounded ==> p(hi) && lo < hi
      decreases hi - lo
    {
      var mid := (lo + hi) / 2;
      if p(mid) {
        hi := mid;
      } else {
        lo := mid;
      }
    }
    return Found(hi);
  }

  /** The number of solutions of a bus number. */
  function Count(bus: int, maxExp: int): nat
  {
    |Solutions(bus, maxExp)|
  }

  /** What solve yields, with the two bounds bisect found. */
  datatype Run = Run(minBus: int, maxBus: int, solutions: seq<map<seq<int>, seq<seq<int>>>>)

  /** b is a bus number, from 2 on, where the count of solutions reaches
      need: b has at least need solutions and b - 1 has fewer. */
  predicate FirstAt(b: int, need: nat, maxExp: int)
  {
    2 <= b && Count(b, maxExp) >= need && Count(b - 1, maxExp) < need
  }

  /** What bisect takes for granted: once a bus number has need solutions,
      every larger one has too. */
  ghost predicate CountMonotone(need: nat, maxExp: int)
  {
    forall x, y :: x <= y && Count(x, maxExp) >= need ==> Count(y, maxExp) >= need
  }

  /** One call of bisect in solve: a bus number, from 2 on, with at least
      need solutions where the one before it has fewer; when the count
      stays at need once it gets there, the first bus number with need
      solutions. */
  method FirstWith(need: nat, maxExp: int, fuel: nat) returns (b: Option<int>)
    requires need >= 1
    ensures b.Some? ==> FirstAt(b.value, need, maxExp)
    ensures b.Some? && CountMonotone(need, maxExp) ==>
      forall bus :: bus < b.value ==> Count(bus, maxExp) < need
  {
    NoSolutionForOne(maxExp);
    assert Count(1, maxExp) == 0;
    var p := bus => Count(bus, maxExp) >= need;
    assert CountMonotone(need, maxExp) ==> Monotone(p);
    var r := Bisect(p, 1, None, fuel);
    if r.Found? {
      return Some(r.index);
    }
    return None;
  }

  /** sols lists the solutions of the bus numbers from lo on, in order. */
  predicate Listed(sols: seq<map<seq<int>, seq<seq<int>>>>, lo: int, maxExp: int)
  {
    forall k :: 0 <= k < |sols| ==> sols[k] == Solutions(lo + k, maxExp)
  }

  /** The loop of solve: get_solutions of every bus number in [lo, hi). */
  method Collect(lo: int, hi: int, maxExp: int) returns (out: seq<map<seq<int>, seq<seq<int>>>>)
    ensures |out| == if hi > lo then hi - lo else 0
    ensures Listed(out, lo, maxExp)
  {
    out := [];
    var bus := lo;
    while bus < hi
      invariant lo <= bus && (bus > lo ==> bus <= hi)
      invariant |out| == bus - lo
      invariant forall k :: 0 <= k < |out| ==> out[k] == Solutions(lo + k, maxExp)
    {
      var sols := GetSolutions(bus, maxExp);
      assert lo + |out| == bus;
      out := out + [sols];
      bus := bus + 1;
    }
  }

  /** solve(max_exp): the solutions of every bus number from where the
      count of solutions reaches one up to, not including, where it reaches
      two; these are the first such bus numbers when the counts only grow,
      as bisect takes for granted. */
  method Solve(maxExp: int, fuel: nat) returns (r: Option<Run>)
    ensures r.Some? ==>
      var run := r.value;
      FirstAt(run.minBus, 1, maxExp) && FirstAt(run.maxBus, 2, maxExp) &&
      |run.solutions| == (if run.maxBus > run.minBus then run.maxBus - run.minBus else 0) &&
      Listed(run.solutions, run.minBus, maxExp)
    ensures r.Some? && CountMonotone(1, maxExp) ==>
      forall bus :: bus < r.value.minBus ==> Count(bus, maxExp) == 0
    ensures r.Some? && CountMonotone(2, maxExp) ==>
      forall bus :: bus < r.value.maxBus ==> Count(bus, maxExp) < 2
  {
    var first := FirstWith(1, maxExp, fuel);
    var last := FirstWith(2, maxExp, fuel);
    if first.None? || last.None? {
      return None;
    }
    var out := Collect(first.value, last.value, maxExp);
    return Some(Run(first.value, last.value, out));
  }
}
