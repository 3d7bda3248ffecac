/** Writing n as a sum of k-th powers: a best-first search over a heap of
    partial sums with an upper bound of nine terms, and a table of sums of
    two powers looked up in pairs. */
module CubeSums {
  import opened Numbers
  import opened Sorting

  /** The sum of the k-th powers of the terms. */
  function PowerSum(terms: seq<int>, k: nat): int
  {
    if terms == [] then 0 else PowerSum(terms[..|terms| - 1], k) + Pow(terms[|terms| - 1], k)
  }

  lemma PowerSumSnoc(terms: seq<int>, t: int, k: nat)
    ensures PowerSum(terms + [t], k) == PowerSum(terms, k) + Pow(t, k)
  {
    assert (terms + [t])[..|terms|] == terms;
  }

  // ---------------------------------------------------------------------
  // The list of powers.

  /** powers: i ** k for i = 0, 1, ... while it does not exceed n. */
  method Powers(n: int, k: nat) returns (powers: seq<int>)
    requires k >= 1 || n <= 0
    ensures forall i :: 0 <= i < |powers| ==> powers[i] == Pow(i, k)
    ensures forall i :: 0 <= i < |powers| ==> powers[i] <= n
    ensures Pow(|powers|, k) > n
  {
    powers := [];
    var i := 0;
    while Pow(i, k) <= n
      invariant 0 <= i == |powers|
      invariant forall j :: 0 <= j < i ==> powers[j] == Pow(j, k) && powers[j] <= n
      invariant i == 0 || i <= n + 1
      decreases n + 1 - i
    {
      if i >= 1 {
        PowAtLeastBase(i, k);
      } else {
        assert Pow(0, k) == 0;
      }
      powers := powers + [Pow(i, k)];
      i := i + 1;
    }
  }

  /** What the loop leaves: exactly the k-th powers up to n, in strictly
      increasing order, one per base from 0. */
  lemma PowersExactly(powers: seq<int>, n: int, k: nat)
    requires k >= 1
    requires forall i :: 0 <= i < |powers| ==> powers[i] == Pow(i, k) && powers[i] <= n
    requires Pow(|powers|, k) > n
    ensures StrictlyAscending(powers)
    ensures forall i: nat :: Pow(i, k) <= n <==> i < |powers|
  {
    forall i, j | 0 <= i < j < |powers|
      ensures powers[i] < powers[j]
    {
      PowStrictlyIncreasing(i, j, k);
    }
    forall i: nat
      ensures Pow(i, k) <= n <==> i < |powers|
    {
      if i >= |powers| {
        PowMonotone(|powers|, i, k);
      }
    }
  }

  // ---------------------------------------------------------------------
  // bisect_left and bisect_right on the sorted list of powers.

  /** bisect_left(powers, rem / b) from index i on: the first index whose
      power reaches rem / b, that is whose power times b reaches rem. */
  function FirstReaching(powers: seq<int>, b: int, rem: int, i: nat): (r: nat)
    requires i <= |powers|
    ensures i <= r <= |powers|
    ensures forall j :: i <= j < r ==> powers[j] * b < rem
    ensures r < |powers| ==> powers[r] * b >= rem
    decreases |powers| - i
  {
    if i == |powers| || powers[i] * b >= rem then i else FirstReaching(powers, b, rem, i + 1)
  }

  /** bisect_right(powers, rem) from index i on: the first index whose
      power exceeds rem. */
  function FirstAbove(powers: seq<int>, rem: int, i: nat): (r: nat)
    requires i <= |powers|
    ensures i <= r <= |powers|
    ensures forall j :: i <= j < r ==> powers[j] <= rem
    ensures r < |powers| ==> powers[r] > rem
    decreases |powers| - i
  {
    if i == |powers| || powers[i] > rem then i else FirstAbove(powers, rem, i + 1)
  }

  /** On a sorted list the first-index searches are the bisections: every
      index from the result on passes, every index before it fails. */
  lemma {:induction false} BisectionsSplit(powers: seq<int>, b: int, rem: int)
    requires StrictlyAscending(powers) && b >= 1
    ensures forall j :: FirstReaching(powers, b, rem, 0) <= j < |powers| ==> powers[j] * b >= rem
    ensures forall j :: FirstAbove(powers, rem, 0) <= j < |powers| ==> powers[j] > rem
  {
    var lo, hi := FirstReaching(powers, b, rem, 0), FirstAbove(powers, rem, 0);
    forall j | lo <= j < |powers|
      ensures powers[j] * b >= rem
    {
      MulMonotone(powers[lo], powers[j], b);
    }
  }

  // ---------------------------------------------------------------------
  // The heap of solve.

  /** A heap entry (cost, remainder, terms); as in the source the terms are
      stored negated, so that larger terms come first in the tuple order. */
  datatype Node = Node(cost: int, rem: int, terms: seq<int>)

  /** Python's strict tuple order on sequences of integers. */
  predicate SeqLess(a: seq<int>, b: seq<int>)
  {
    if a == [] then b != []
    else if b == [] then false
    else a[0] < b[0] || (a[0] == b[0] && SeqLess(a[1..], b[1..]))
  }

  /** The order heapq compares entries in: cost, then remainder, then terms. */
  predicate Before(x: Node, y: Node)
  {
    x.cost < y.cost || (x.cost == y.cost && (x.rem < y.rem || (x.rem == y.rem && SeqLess(x.terms, y.terms))))
  }

  lemma {:induction false} SeqLessIrreflexive(a: seq<int>)
    ensures !SeqLess(a, a)
  {
    if a != [] {
      SeqLessIrreflexive(a[1..]);
    }
  }

  lemma {:induction false} SeqLessTransitive(a: seq<int>, b: seq<int>, c: seq<int>)
    requires SeqLess(a, b) && SeqLess(b, c)
    ensures SeqLess(a, c)
  {
    if a != [] && a[0] == b[0] && b[0] == c[0] {
      SeqLessTransitive(a[1..], b[1..], c[1..]);
    }
  }

  lemma {:induction false} SeqLessTotal(a: seq<int>, b: seq<int>)
    ensures a == b || SeqLess(a, b) || SeqLess(b, a)
  {
    if a != [] && b != [] && a[0] == b[0] {
      SeqLessTotal(a[1..], b[1..]);
      if a[1..] == b[1..] {
        assert a == [a[0]] + a[1..] && b == [b[0]] + b[1..];
      }
    }
  }

  /** The heap order is a strict total order, so the least entry is unique. */
  lemma BeforeOrder(x: Node, y: Node, z: Node)
    ensures !Before(x, x)
    ensures Before(x, y) && Before(y, z) ==> Before(x, z)
    ensures x == y || Before(x, y) || Before(y, x)
  {
    SeqLessIrreflexive(x.terms);
    if Before(x, y) && Before(y, z) && x.cost == z.cost && x.rem == z.rem {
      SeqLessTransitive(x.terms, y.terms, z.terms);
    }
    SeqLessTotal(x.terms, y.terms);
  }

  /** heappop: the index of the least entry of the heap. */
  method LeastEntry(heap: seq<Node>) returns (i: nat)
    requires heap != []
    ensures i < |heap|
    ensures forall j :: 0 <= j < |heap| ==> heap[j] == heap[i] || Before(heap[i], heap[j])
  {
    i := 0;
    var j := 1;
    BeforeOrder(heap[0], heap[0], heap[0]);
    while j < |heap|
      invariant i < j <= |heap|
      invariant forall m :: 0 <= m < j ==> heap[m] == heap[i] || Before(heap[i], heap[m])
    {
      BeforeOrder(heap[j], heap[i], heap[i]);
      if Before(heap[j], heap[i]) {
        forall m | 0 <= m < j
          ensures heap[m] == heap[j] || Before(heap[j], heap[m])
        {
          BeforeOrder(heap[j], heap[i], heap[m]);
        }
        i := j;
      }
      j := j + 1;
    }
  }

  /** The heap with entry i taken out. */
  function Without(heap: seq<Node>, i: nat): (r: seq<Node>)
    requires i < |heap|
    ensures multiset(r) + multiset{heap[i]} == multiset(heap)
    ensures forall x :: x in r ==> x in heap
  {
    assert heap == heap[..i] + [heap[i]] + heap[i + 1..];
    heap[..i] + heap[i + 1..]
  }

  /** The terms of a tuple, negated back: what solve yields for an entry. */
  function Negated(s: seq<int>): (r: seq<int>)
    ensures |r| == |s| && forall i :: 0 <= i < |s| ==> r[i] + s[i] == 0
  {
    seq(|s|, i requires 0 <= i < |s| => -s[i])
  }

  /** A decomposition yielded by solve: terms of at least 1, largest first,
      whose k-th powers add up to n. */
  predicate Decomposition(s: seq<int>, n: int, k: nat)
  {
    Descending(s) && (forall i :: 0 <= i < |s| ==> s[i] >= 1) && PowerSum(s, k) == n
  }

  /** What every heap entry satisfies: its terms are a decomposition of n
      minus the remainder, and its cost bounds the number of terms the
      entry needs in the end. */
  predicate Sound(x: Node, n: int, k: nat)
  {
    SoundParts(Negated(x.terms), x.rem, x.cost, n, k)
  }

  /** Sound, for the terms s of an entry with remainder rem and cost cost. */
  predicate SoundParts(s: seq<int>, rem: int, cost: int, n: int, k: nat)
  {
    Descending(s) && (forall i :: 0 <= i < |s| ==> s[i] >= 1) && PowerSum(s, k) + rem == n &&
    (s != [] ==> rem >= 0) &&
    (rem > 0 ==> cost >= |s| + 1) &&
    (rem == 0 ==> cost == if s == [] then 1 else |s|)
  }

  /** The entry pushed for term after x: cost len(terms) + ceil(rem / power). */
  function Child(x: Node, term: int, power: int): Node
    requires power >= 1
  {
    Node(|x.terms| + (x.rem + power - 1) / power, x.rem - power, x.terms + [-term])
  }

  lemma CeilingBounds(rem: int, p: int)
    requires p >= 1 && rem >= p
    ensures (rem + p - 1) / p >= 1
    ensures rem == p ==> (rem + p - 1) / p == 1
    ensures rem > p ==> (rem + p - 1) / p >= 2
  {
    var q, r := (rem + p - 1) / p, (rem + p - 1) % p;
    assert rem + p - 1 == q * p + r && 0 <= r < p;
    if q <= 0 {
      MulMonotone(q, 0, p);
    }
    if rem > p && q <= 1 {
      MulMonotone(q, 1, p);
    }
    if rem == p {
      DivModUnique(2 * p - 1, p, 1, p - 1);
    }
  }

  /** A term from 1 up to the last term, whose power fits in the remainder,
      gives a sound entry with one more term. */
  lemma {:induction false} ChildSound(x: Node, term: int, n: int, k: nat)
    requires k >= 1 && Sound(x, n, k) && x.rem > 0 && term >= 1
    requires x.terms != [] ==> term <= -x.terms[|x.terms| - 1]
    requires Pow(term, k) <= x.rem
    ensures Pow(term, k) >= 1 && Sound(Child(x, term, Pow(term, k)), n, k)
  {
    PowAtLeastBase(term, k);
    var p := Pow(term, k);
    var s := Negated(x.terms);
    var c := Child(x, term, p);
    assert c.rem == x.rem - p && c.cost == |s| + (x.rem + p - 1) / p && c.terms == x.terms + [-term];
    ChildParts(s, term, p, x.rem, x.cost, n, k);
    NegatedSnoc(x.terms, -term);
    SoundFrom(c, s + [term], n, k);
  }

  /** ChildSound, on the terms, remainder and cost of the entry. */
  lemma ChildParts(s: seq<int>, term: int, p: int, rem: int, cost: int, n: int, k: nat)
    requires SoundParts(s, rem, cost, n, k) && rem > 0 && term >= 1
    requires s != [] ==> term <= s[|s| - 1]
    requires p == Pow(term, k) && 1 <= p <= rem
    ensures SoundParts(s + [term], rem - p, |s| + (rem + p - 1) / p, n, k)
  {
    PowerSumSnoc(s, term, k);
    DescendingSnoc(s, term);
    PositiveSnoc(s, term);
    CeilingBounds(rem, p);
  }

  lemma SoundFrom(y: Node, s: seq<int>, n: int, k: nat)
    requires Negated(y.terms) == s && SoundParts(s, y.rem, y.cost, n, k)
    ensures Sound(y, n, k)
  {
  }

  lemma PositiveSnoc(s: seq<int>, t: int)
    requires (forall i :: 0 <= i < |s| ==> s[i] >= 1) && t >= 1
    ensures forall i :: 0 <= i < |s + [t]| ==> (s + [t])[i] >= 1
  {
  }

  lemma NegatedSnoc(t: seq<int>, v: int)
    ensures Negated(t + [v]) == Negated(t) + [-v]
  {
  }

  /** A term no larger than the last keeps a tuple descending. */
  lemma DescendingSnoc(s: seq<int>, t: int)
    requires Descending(s) && (s != [] ==> t <= s[|s| - 1])
    ensures Descending(s + [t])
  {
    forall i, j | 0 <= i < j < |s| + 1
      ensures (s + [t])[i] >= (s + [t])[j]
    {
      if j == |s| {
        assert s[i] >= s[|s| - 1];
      }
    }
  }

  /** Pushing the children of x for the terms lo .. hi - 1. */
  method PushChildren(heap: seq<Node>, x: Node, powers: seq<int>, lo: nat, hi: nat) returns (next: seq<Node>)
    requires lo <= hi <= |powers|
    requires forall t :: lo <= t < hi ==> powers[t] >= 1
    ensures |next| == |heap| + (hi - lo) && next[..|heap|] == heap
    ensures forall t :: lo <= t < hi ==> next[|heap| + t - lo] == Child(x, t, powers[t])
  {
    next := heap;
    var term := lo;
    while term < hi
      invariant lo <= term <= hi
      invariant |next| == |heap| + (term - lo) && next[..|heap|] == heap
      invariant forall t :: lo <= t < term ==> next[|heap| + t - lo] == Child(x, t, powers[t])
    {
      next := next + [Child(x, term, powers[term])];
      term := term + 1;
    }
  }

  /** The children pushed for a popped entry are sound. */
  lemma ChildrenSound(heap: seq<Node>, next: seq<Node>, x: Node, powers: seq<int>, lo: nat, hi: nat, n: int, k: nat)
    requires k >= 1 && Sound(x, n, k) && x.rem > 0
    requires lo <= hi <= |powers| && lo >= 1
    requires forall i :: 0 <= i < |powers| ==> powers[i] == Pow(i, k)
    requires forall t :: lo <= t < hi ==> 1 <= powers[t] <= x.rem
    requires x.terms != [] ==> hi <= 1 - x.terms[|x.terms| - 1]
    requires |next| == |heap| + (hi - lo) && next[..|heap|] == heap
    requires forall t :: lo <= t < hi ==> next[|heap| + t - lo] == Child(x, t, powers[t])
    ensures forall y :: y in next ==> y in heap || (Sound(y, n, k) && y.terms != [])
  {
    forall y | y in next
      ensures y in heap || (Sound(y, n, k) && y.terms != [])
    {
      var m :| 0 <= m < |next| && next[m] == y;
      if m < |heap| {
        assert next[..|heap|][m] == y;
      } else {
        var t := lo + m - |heap|;
        assert next[|heap| + t - lo] == Child(x, t, powers[t]);
        ChildSound(x, t, n, k);
      }
    }
  }

  // ---------------------------------------------------------------------
  // solve.

  /** The body of solve for a popped entry with a remainder: push an entry
      for every term from bisect_left(powers, rem / (best - len(terms))) up to
      bisect_right(powers, rem), and no further than the last term. */
  method Expand(heap: seq<Node>, x: Node, powers: seq<int>, best: int, n: int, k: nat) returns (next: seq<Node>)
    requires (k >= 1 || powers == []) && Sound(x, n, k) && x.rem != 0 && x.cost <= best
    requires x.terms == [] ==> best >= 1
    requires forall i :: 0 <= i < |powers| ==> powers[i] == Pow(i, k)
    requires StrictlyAscending(powers)
    ensures forall y :: y in next ==> y in heap || (Sound(y, n, k) && y.terms != [])
  {
    var b := best - |x.terms|;
    assert b >= 1;
    var lo := FirstReaching(powers, b, x.rem, 0);
    var hi := FirstAbove(powers, x.rem, 0);
    if x.terms != [] && 1 - x.terms[|x.terms| - 1] < hi {
      hi := 1 - x.terms[|x.terms| - 1];
    }
    next := heap;
    if lo < hi {
      assert powers[0] == 0 <= x.rem;
      BisectionsSplit(powers, b, x.rem);
      assert forall t :: lo <= t < hi ==> 1 <= powers[t] <= x.rem;
      next := PushChildren(heap, x, powers, lo, hi);
      ChildrenSound(heap, next, x, powers, lo, hi, n, k);
    }
  }

  /** The search state of solve: every entry sound; before the first pop
      the heap is the single start entry, after it every entry has terms;
      best is 9 until a decomposition is found and then the cost of the
      last one found. */
  predicate Searching(heap: seq<Node>, found: seq<seq<int>>, best: int, n: int, k: nat)
  {
    HeapOk(heap, n, k) && FoundOk(found, best, n, k) &&
    (found != [] && found[|found| - 1] == [] ==> heap == [])
  }

  /** The heap part of the search state. */
  predicate HeapOk(heap: seq<Node>, n: int, k: nat)
  {
    (forall x :: x in heap ==> Sound(x, n, k)) &&
    ((forall x :: x in heap ==> x.terms != []) || heap == [Node(1, n, [])])
  }

  /** The yielded part of the search state. */
  predicate FoundOk(found: seq<seq<int>>, best: int, n: int, k: nat)
  {
    (forall s :: s in found ==> Decomposition(s, n, k) && |s| <= 9) &&
    (forall i, j :: 0 <= i < j < |found| ==> |found[j]| <= |found[i]|) &&
    (found == [] ==> best == 9) &&
    (found != [] ==> best == (if found[|found| - 1] == [] then 1 else |found[|found| - 1]|))
  }

  /** Taking an entry out keeps the heap part; the start entry leaves the heap empty. */
  lemma PopStep(heap: seq<Node>, i: nat, n: int, k: nat)
    requires i < |heap| && HeapOk(heap, n, k)
    ensures HeapOk(Without(heap, i), n, k) && Sound(heap[i], n, k)
    ensures heap[i].terms == [] ==> Without(heap, i) == []
  {
    assert heap[i] in heap;
    if heap[i].terms == [] {
      assert heap == [Node(1, n, [])];
    }
  }

  /** Yielding the terms of a popped entry with no remainder keeps the state. */
  lemma {:induction false} YieldStep(heap: seq<Node>, i: nat, found: seq<seq<int>>, best: int, n: int, k: nat)
    requires i < |heap| && Searching(heap, found, best, n, k)
    requires heap[i].rem == 0 && heap[i].cost <= best
    ensures Searching(Without(heap, i), found + [Negated(heap[i].terms)], heap[i].cost, n, k)
  {
    PopStep(heap, i, n, k);
    FoundStep(found, best, heap[i], n, k);
  }

  /** Yielding the terms of a sound entry with no remainder keeps the yielded part. */
  lemma FoundStep(found: seq<seq<int>>, best: int, x: Node, n: int, k: nat)
    requires FoundOk(found, best, n, k) && Sound(x, n, k) && x.rem == 0 && x.cost <= best
    requires found != [] ==> found[|found| - 1] != []
    ensures FoundOk(found + [Negated(x.terms)], x.cost, n, k)
  {
    var s := Negated(x.terms);
    assert Decomposition(s, n, k);
    NoLonger(found, s);
  }

  /** Appending a tuple no longer than the last keeps the lengths non-increasing. */
  lemma NoLonger(found: seq<seq<int>>, s: seq<int>)
    requires forall i, j :: 0 <= i < j < |found| ==> |found[j]| <= |found[i]|
    requires found != [] ==> |s| <= |found[|found| - 1]|
    ensures forall i, j :: 0 <= i < j < |found| + 1 ==> |(found + [s])[j]| <= |(found + [s])[i]|
  {
    forall a, b | 0 <= a < b < |found| + 1
      ensures |(found + [s])[b]| <= |(found + [s])[a]|
    {
      if b == |found| {
        assert |found[a]| >= |found[|found| - 1]|;
      }
    }
  }

  /** Pushing the children of a popped entry with a remainder keeps the state. */
  lemma {:induction false} ExpandStep(heap: seq<Node>, i: nat, next: seq<Node>, found: seq<seq<int>>, best: int, n: int, k: nat)
    requires i < |heap| && Searching(heap, found, best, n, k)
    requires heap[i].rem != 0
    requires forall y :: y in next ==> y in Without(heap, i) || (Sound(y, n, k) && y.terms != [])
    ensures Searching(next, found, best, n, k)
  {
    PopStep(heap, i, n, k);
  }

  /** heap[i] is the entry heappop returns: no other entry comes first. */
  predicate Least(heap: seq<Node>, i: nat)
    requires i < |heap|
  {
    forall j :: 0 <= j < |heap| ==> heap[j] == heap[i] || Before(heap[i], heap[j])
  }

  /** solve(n, k), with its yields collected in found. It stops when the
      heap is empty or a popped cost exceeds the best, and after fuel pops
      at the latest. rest and best are the heap and the best cost when it
      stops; finished says whether the source stops there too: the heap is
      empty or its least entry costs more than best. */
  method Solve(n: int, k: nat, fuel: nat) returns (found: seq<seq<int>>, finished: bool, rest: seq<Node>, best: int)
    requires k >= 1 || n <= 0
    ensures forall s :: s in found ==> Decomposition(s, n, k) && |s| <= 9
    ensures forall i, j :: 0 <= i < j < |found| ==> |found[j]| <= |found[i]|
    ensures found == [] ==> best == 9
    ensures found != [] ==> best == if found[|found| - 1] == [] then 1 else |found[|found| - 1]|
    ensures finished <==> rest == [] || exists i :: 0 <= i < |rest| && Least(rest, i) && rest[i].cost > best
  {
    var powers := Powers(n, k);
    if k >= 1 {
      PowersExactly(powers, n, k);
    } else {
      // 0 ** 0 == 1 exceeds n, so there are no powers
      assert Pow(0, k) == 1;
    }
    var heap := [Node(1, n, [])];
    best := 9;
    found := [];
    var steps := 0;
    assert Sound(Node(1, n, []), n, k);
    while heap != [] && steps < fuel
      invariant Searching(heap, found, best, n, k)
      decreases fuel - steps
    {
      steps := steps + 1;
      var i := LeastEntry(heap);
      var x := heap[i];
      assert x in heap;
      if x.cost > best {
        rest, finished := heap, true;
        return;
      }
      if x.rem == 0 {
        YieldStep(heap, i, found, best, n, k);
        heap, best, found := Without(heap, i), x.cost, found + [Negated(x.terms)];
        continue;
      }
      var others := Without(heap, i);
      var next := Expand(others, x, powers, best, n, k);
      ExpandStep(heap, i, next, found, best, n, k);
      heap := next;
    }
    rest := heap;
    if heap == [] {
      finished := true;
    } else {
      var i := LeastEntry(heap);
      finished := heap[i].cost > best;
      LeastOnly(heap, i, best);
    }
  }

  /** The least entry of a heap is unique in cost: any least entry has it. */
  lemma LeastOnly(heap: seq<Node>, i: nat, best: int)
    requires i < |heap| && Least(heap, i)
    ensures (exists j :: 0 <= j < |heap| && Least(heap, j) && heap[j].cost > best) <==> heap[i].cost > best
  {
    forall j | 0 <= j < |heap| && Least(heap, j)
      ensures heap[j].cost == heap[i].cost
    {
      if heap[j] != heap[i] {
        assert Before(heap[i], heap[j]) && Before(heap[j], heap[i]);
        assert heap[i].cost <= heap[j].cost <= heap[i].cost;
      }
    }
  }

  // ---------------------------------------------------------------------
  // solve2.

  /** The entry sums[s] == (i, j) of solve2: j <= i and i ** k + j ** k == s <= n. */
  ghost predicate PairOf(s: int, p: (int, int), n: int, k: nat)
  {
    0 <= p.1 <= p.0 && Sum2(p.0, p.1, k) == s && s <= n
  }

  /** Every key of sums maps to a pair whose powers add up to it. */
  ghost predicate AllPairs(sums: map<int, (int, int)>, n: int, k: nat)
  {
    forall s :: s in sums ==> PairOf(s, sums[s], n, k)
  }

  /** Every sum of two k-th powers up to n is a key of sums. */
  ghost predicate AllReached(sums: map<int, (int, int)>, n: int, k: nat)
  {
    forall a: nat, c: nat :: c <= a && Sum2(a, c, k) <= n ==> Sum2(a, c, k) in sums
  }

  /** i ** k + j ** k. */
  function Sum2(i: int, j: int, k: nat): int
  {
    Pow(i, k) + Pow(j, k)
  }

  /** keys lists the keys of sums once each, as a dict iterates them. */
  ghost predicate Keyed(sums: map<int, (int, int)>, keys: seq<int>)
  {
    (forall s :: s in sums <==> s in keys) &&
    (forall a, b :: 0 <= a < b < |keys| ==> keys[a] != keys[b])
  }

  /** The nested loops of solve2 filling sums: every sum of two k-th powers
      of naturals up to n is a key, mapped to a pair giving it. */
  method PairSums(n: int, k: nat) returns (sums: map<int, (int, int)>, keys: seq<int>)
    requires k >= 1 || n <= 0
    ensures AllPairs(sums, n, k) && AllReached(sums, n, k) && Keyed(sums, keys)
  {
    sums, keys := map[], [];
    var i := 0;
    while Pow(i, k) <= n
      invariant i == 0 || i <= n + 1
      invariant forall s :: s in sums ==> PairOf(s, sums[s], n, k)
      invariant forall a: nat, c: nat :: c <= a < i && Sum2(a, c, k) <= n ==> Sum2(a, c, k) in sums
      invariant Keyed(sums, keys)
      decreases n + 1 - i
    {
      if i >= 1 {
        PowAtLeastBase(i, k);
      } else {
        assert Pow(0, k) == 0;
      }
      var ik := Pow(i, k);
      var j := 0;
      while Pow(j, k) <= n - ik && j <= i
        invariant 0 <= j <= i + 1
        invariant forall s :: s in sums ==> PairOf(s, sums[s], n, k)
        invariant forall a: nat, c: nat :: c <= a < i && Sum2(a, c, k) <= n ==> Sum2(a, c, k) in sums
        invariant forall c: nat :: c < j ==> Sum2(i, c, k) in sums
        invariant Keyed(sums, keys)
        decreases i + 1 - j
      {
        var s := Sum2(i, j, k);
        if s !in sums {
          keys := keys + [s];
        }
        sums := sums[s := (i, j)];
        j := j + 1;
      }
      forall c: nat | c <= i && Sum2(i, c, k) <= n
        ensures Sum2(i, c, k) in sums
      {
        if c >= j {
          PowMonotone(j, c, k);
        }
      }
      i := i + 1;
    }
    forall a: nat, c: nat | c <= a && Sum2(a, c, k) <= n
      ensures a < i
    {
      PowNonNegative(c, k);
      if a >= i {
        PowMonotone(i, a, k);
      }
    }
  }

  /** n is a sum of four k-th powers of naturals. */
  ghost predicate FourPowers(n: int, k: nat)
  {
    exists a: nat, b: nat, c: nat, d: nat :: Sum2(a, b, k) + Sum2(c, d, k) == n
  }

  /** Taking the last term out of the middle of a tuple. */
  lemma {:induction false} PowerSumRemove(y: seq<int>, m: nat, k: nat)
    requires m < |y|
    ensures PowerSum(y, k) == PowerSum(y[..m] + y[m + 1..], k) + Pow(y[m], k)
    decreases |y|
  {
    if m < |y| - 1 {
      var last := y[|y| - 1];
      var front := y[..|y| - 1];
      PowerSumRemove(front, m, k);
      assert y[..m] + y[m + 1..] == (front[..m] + front[m + 1..]) + [last];
      PowerSumSnoc(front[..m] + front[m + 1..], last, k);
    } else {
      assert y[..m] + y[m + 1..] == y[..|y| - 1];
    }
  }

  /** The sum of powers does not depend on the order of the terms. */
  lemma {:induction false} PowerSumPermutation(x: seq<int>, y: seq<int>, k: nat)
    requires multiset(x) == multiset(y)
    ensures PowerSum(x, k) == PowerSum(y, k)
    decreases |x|
  {
    if x != [] {
      var last := x[|x| - 1];
      var front := x[..|x| - 1];
      assert x == front + [last];
      assert last in multiset(y);
      var m :| 0 <= m < |y| && y[m] == last;
      var rest := y[..m] + y[m + 1..];
      MultisetRemove(y, m);
      assert multiset(x) == multiset(front) + multiset{last};
      PowerSumPermutation(front, rest, k);
      PowerSumRemove(y, m, k);
    } else {
      assert |y| == |multiset(y)| == 0;
    }
  }

  lemma MultisetRemove(y: seq<int>, m: int)
    requires 0 <= m < |y|
    ensures multiset(y[..m] + y[m + 1..]) == multiset(y) - multiset{y[m]}
  {
    assert y == y[..m] + [y[m]] + y[m + 1..];
  }

  /** A result of solve2: four naturals, largest first, whose k-th powers add up to n. */
  predicate FourTerms(r: seq<int>, n: int, k: nat)
  {
    |r| == 4 && Descending(r) && (forall t :: t in r ==> t >= 0) && PowerSum(r, k) == n
  }

  lemma PowerSumFour(a: int, b: int, c: int, d: int, k: nat)
    ensures PowerSum([a, b, c, d], k) == Sum2(a, b, k) + Sum2(c, d, k)
  {
    PowerSumSnoc([], a, k);
    assert [] + [a] == [a];
    PowerSumSnoc([a], b, k);
    assert [a] + [b] == [a, b];
    PowerSumSnoc([a, b], c, k);
    assert [a, b] + [c] == [a, b, c];
    PowerSumSnoc([a, b, c], d, k);
    assert [a, b, c] + [d] == [a, b, c, d];
  }

  /** sorted(sums[s] + sums[n - s], reverse=True) is such a result. */
  lemma Joined(s: int, p: (int, int), q: (int, int), r: seq<int>, n: int, k: nat)
    requires PairOf(s, p, n, k) && PairOf(n - s, q, n, k)
    requires Descending(r) && multiset(r) == multiset([p.0, p.1, q.0, q.1])
    ensures FourTerms(r, n, k)
  {
    var four := [p.0, p.1, q.0, q.1];
    assert |r| == |multiset(r)| == 4;
    assert PowerSum(r, k) == n by {
      PowerSumPermutation(r, four, k);
      PowerSumFour(p.0, p.1, q.0, q.1, k);
    }
    assert forall t :: t in r ==> t >= 0 by {
      forall t | t in r
        ensures t in four
      {
        assert t in multiset(r);
      }
    }
  }

  /** A result gives four powers adding up to n. */
  lemma FourTermsWitness(r: seq<int>, n: int, k: nat)
    requires FourTerms(r, n, k)
    ensures FourPowers(n, k)
  {
    assert r == [r[0], r[1], r[2], r[3]];
    assert r[0] in r && r[1] in r && r[2] in r && r[3] in r;
    var a: nat, b: nat, c: nat, d: nat := r[0], r[1], r[2], r[3];
    PowerSumFour(a, b, c, d, k);
    assert Sum2(a, b, k) + Sum2(c, d, k) == n;
  }

  /** Four powers adding up to n give a key s of sums with n - s a key too. */
  lemma FourPowersPaired(sums: map<int, (int, int)>, n: int, k: nat)
    requires FourPowers(n, k) && AllReached(sums, n, k)
    ensures exists s :: s in sums && n - s in sums
  {
    var a: nat, b: nat, c: nat, d: nat :| Sum2(a, b, k) + Sum2(c, d, k) == n;
    if a < b {
      a, b := b, a;
    }
    if c < d {
      c, d := d, c;
    }
    PowNonNegative(a, k);
    PowNonNegative(b, k);
    PowNonNegative(c, k);
    PowNonNegative(d, k);
    var s := Sum2(a, b, k);
    assert s in sums && n - s == Sum2(c, d, k) && n - s in sums;
  }

  /** Two pairs whose sums add up to n give four powers adding up to n. */
  lemma PairedFour(s: int, p: (int, int), q: (int, int), n: int, k: nat)
    requires PairOf(s, p, n, k) && PairOf(n - s, q, n, k)
    ensures FourPowers(n, k)
  {
    var r := SortDescending([p.0, p.1, q.0, q.1]);
    Joined(s, p, q, r, n, k);
    FourTermsWitness(r, n, k);
  }

  /** Some key s of sums has n - s as a key too exactly when n is a sum of
      four k-th powers. */
  lemma PairedIffFour(sums: map<int, (int, int)>, keys: seq<int>, n: int, k: nat)
    requires AllPairs(sums, n, k) && AllReached(sums, n, k) && Keyed(sums, keys)
    ensures (exists s :: s in keys && s in sums && n - s in sums) <==> FourPowers(n, k)
  {
    if exists s :: s in keys && s in sums && n - s in sums {
      var s :| s in keys && s in sums && n - s in sums;
      PairedFour(s, sums[s], sums[n - s], n, k);
    }
    if FourPowers(n, k) {
      FourPowersPaired(sums, n, k);
      var s :| s in sums && n - s in sums;
      assert s in keys;
    }
  }

  /** The keys of ks, in order, that are keys of sums together with their
      complement n - s: the keys the final loop of solve2 yields for. */
  function Matched(ks: seq<int>, sums: map<int, (int, int)>, n: int): seq<int>
  {
    if ks == [] then []
    else
      var s := ks[|ks| - 1];
      Matched(ks[..|ks| - 1], sums, n) + if s in sums && n - s in sums then [s] else []
  }

  /** A key is matched exactly when it and its complement are keys. */
  lemma {:induction false} MatchedMembers(ks: seq<int>, sums: map<int, (int, int)>, n: int)
    ensures forall s {:trigger s in Matched(ks, sums, n)} :: s in Matched(ks, sums, n) <==> s in ks && s in sums && n - s in sums
  {
    if ks != [] {
      var front, last := ks[..|ks| - 1], ks[|ks| - 1];
      MatchedMembers(front, sums, n);
      assert ks == front + [last];
      MatchedSnoc(front, last, sums, n);
      var earlier := Matched(front, sums, n);
      var tail := if last in sums && n - last in sums then [last] else [];
      assert Matched(ks, sums, n) == earlier + tail;
      forall s
        ensures s in earlier + tail <==> s in ks && s in sums && n - s in sums
      {
        assert s in earlier + tail <==> s in earlier || s in tail;
        assert s in ks <==> s in front || s == last;
      }
    }
  }

  /** Some key is matched exactly when a key and its complement are keys. */
  lemma MatchedAny(ks: seq<int>, sums: map<int, (int, int)>, n: int)
    ensures Matched(ks, sums, n) != [] <==> exists s :: s in ks && s in sums && n - s in sums
  {
    var matched := Matched(ks, sums, n);
    MatchedMembers(ks, sums, n);
    if matched != [] {
      assert matched[0] in matched;
    }
    if s :| s in ks && s in sums && n - s in sums {
      assert s in matched;
    }
  }

  /** The terms of sums[s] + sums[n - s]. */
  function FourOf(sums: map<int, (int, int)>, s: int, n: int): seq<int>
    requires s in sums && n - s in sums
  {
    [sums[s].0, sums[s].1, sums[n - s].0, sums[n - s].1]
  }

  /** sorted(s, reverse=True) as called by solve2. */
  method SortReverse(s: seq<int>) returns (r: seq<int>)
    ensures Descending(r) && multiset(r) == multiset(s)
  {
    r := SortDescending(s);
  }

  /** results[i] is the terms of the pairs for matched[i], sorted in reverse. */
  /** r is the terms of the pairs for s and n - s, sorted in reverse. */
  predicate ArrangedAt(sums: map<int, (int, int)>, s: int, r: seq<int>, n: int)
  {
    s in sums && n - s in sums && Descending(r) && multiset(r) == multiset(FourOf(sums, s, n))
  }

  /** results[i] is the terms of the pairs for matched[i], sorted in reverse. */
  predicate Arranged(sums: map<int, (int, int)>, matched: seq<int>, results: seq<seq<int>>, n: int)
  {
    |results| == |matched| &&
    forall i :: 0 <= i < |results| ==> ArrangedAt(sums, matched[i], results[i], n)
  }

  lemma ArrangedSnoc(sums: map<int, (int, int)>, matched: seq<int>, results: seq<seq<int>>, n: int, s: int, r: seq<int>)
    requires Arranged(sums, matched, results, n) && ArrangedAt(sums, s, r, n)
    ensures Arranged(sums, matched + [s], results + [r], n)
  {
    forall i | 0 <= i < |results| + 1
      ensures ArrangedAt(sums, (matched + [s])[i], (results + [r])[i], n)
    {
      if i < |results| {
        assert (matched + [s])[i] == matched[i] && (results + [r])[i] == results[i];
      }
    }
  }

  lemma MatchedSnoc(ks: seq<int>, s: int, sums: map<int, (int, int)>, n: int)
    ensures Matched(ks + [s], sums, n) == Matched(ks, sums, n) + if s in sums && n - s in sums then [s] else []
  {
    assert (ks + [s])[..|ks|] == ks;
  }

  /** The final loop of solve2: for s in sums, if n - s is a key too, yield
      the terms of the two pairs sorted in reverse. */
  method Lookup(sums: map<int, (int, int)>, keys: seq<int>, n: int) returns (results: seq<seq<int>>)
    requires forall s :: s in keys ==> s in sums
    ensures Arranged(sums, Matched(keys, sums, n), results, n)
  {
    results := [];
    var m := 0;
    ghost var matched := [];
    while m < |keys|
      invariant m <= |keys|
      invariant matched == Matched(keys[..m], sums, n)
      invariant Arranged(sums, matched, results, n)
    {
      var s := keys[m];
      assert keys[..m + 1] == keys[..m] + [s];
      MatchedSnoc(keys[..m], s, sums, n);
      assert s in keys;
      if n - s in sums {
        var r := SortReverse(FourOf(sums, s, n));
        ArrangedSnoc(sums, matched, results, n, s, r);
        results, matched := results + [r], matched + [s];
      }
      m := m + 1;
    }
    assert keys[..m] == keys;
  }

  /** Every result of the final loop is four naturals, largest first, with
      k-th powers adding up to n. */
  lemma LookupSound(sums: map<int, (int, int)>, matched: seq<int>, results: seq<seq<int>>, n: int, k: nat)
    requires AllPairs(sums, n, k)
    requires Arranged(sums, matched, results, n)
    ensures forall i :: 0 <= i < |results| ==> FourTerms(results[i], n, k)
  {
    forall i | 0 <= i < |results|
      ensures FourTerms(results[i], n, k)
    {
      LookupAt(sums, matched[i], results[i], n, k);
    }
  }

  /** LookupSound, for one key and its result. */
  lemma LookupAt(sums: map<int, (int, int)>, s: int, r: seq<int>, n: int, k: nat)
    requires AllPairs(sums, n, k) && ArrangedAt(sums, s, r, n)
    ensures FourTerms(r, n, k)
  {
    var p, q := sums[s], sums[n - s];
    assert PairOf(s, p, n, k) && PairOf(n - s, q, n, k);
    assert FourOf(sums, s, n) == [p.0, p.1, q.0, q.1];
    Joined(s, p, q, r, n, k);
  }

  /** solve2(n, k) with its yields collected: every result is four naturals,
      largest first, whose k-th powers add up to n, and there is a result
      exactly when n is a sum of four k-th powers. */
  method Solve2(n: int, k: nat) returns (results: seq<seq<int>>)
    requires k >= 1 || n <= 0
    ensures forall r :: r in results ==> FourTerms(r, n, k)
    ensures results != [] <==> FourPowers(n, k)
  {
    var sums, keys := PairSums(n, k);
    results := Lookup(sums, keys, n);
    ghost var matched := Matched(keys, sums, n);
    LookupSound(sums, matched, results, n, k);
    MatchedAny(keys, sums, n);
    PairedIffFour(sums, keys, n, k);
    assert |results| == |matched|;
  }
}
