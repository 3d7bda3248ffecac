/** "Fractions égyptiennes": writing a fraction as a sum of distinct unit
    fractions 1/d, and growing a set of denominators by replacing one of
    them with such a split of its reciprocal. Fractions are exact
    rationals, modelled by Dafny's `real`. */
module EgyptianFractions {

  /** Every denominator is at least 1. */
  predicate Positive(s: set<int>)
  {
    forall x :: x in s ==> x >= 1
  }

  /** Every denominator lies in [lo, hi]. */
  predicate Within(s: set<int>, lo: int, hi: int)
  {
    forall x :: x in s ==> lo <= x <= hi
  }

  /** The unit fraction 1/d. */
  function Recip(d: int): real
    requires d >= 1
  {
    1.0 / (d as real)
  }

  /** A non-empty set has an element to take out. */
  lemma Inhabited(s: set<int>)
    ensures s != {} ==> exists x :: x in s
  {
    if s != {} && forall v :: v !in s {
      assert false;
    }
  }

  /** The sum of 1/d over a set of denominators. */
  ghost function Sum(s: set<int>): real
    requires Positive(s)
  {
    if s == {} then 0.0 else Inhabited(s); var x :| x in s; Recip(x) + Sum(s - {x})
  }

  /** The sum does not depend on the element taken out first. */
  lemma SumRemove(s: set<int>, y: int)
    requires Positive(s) && y in s
    ensures Sum(s) == Recip(y) + Sum(s - {y})
    decreases |s|
  {
    var x :| x in s && Sum(s) == Recip(x) + Sum(s - {x});
    if x != y {
      SumRemove(s - {x}, y);
      SumRemove(s - {y}, x);
      assert s - {x} - {y} == s - {y} - {x};
    }
  }

  /** The sum over a disjoint union is the sum of the sums. */
  lemma {:induction false} SumUnion(a: set<int>, b: set<int>)
    requires Positive(a) && Positive(b) && a !! b
    ensures Sum(a + b) == Sum(a) + Sum(b)
    decreases |a|
  {
    Inhabited(a);
    if a != {} {
      var y :| y in a;
      SumRemove(a + b, y);
      SumRemove(a, y);
      assert (a + b) - {y} == (a - {y}) + b;
      SumUnion(a - {y}, b);
    }
  }

  lemma RecipBounds(d: int)
    requires d >= 1
    ensures 0.0 < Recip(d) <= 1.0
  {
  }

  /** A sum of unit fractions is positive unless the set is empty. */
  lemma {:induction false} SumPositive(s: set<int>)
    requires Positive(s)
    ensures s == {} <==> Sum(s) == 0.0
    ensures Sum(s) >= 0.0
    decreases |s|
  {
    Inhabited(s);
    if s != {} {
      var y :| y in s;
      SumRemove(s, y);
      SumPositive(s - {y});
      RecipBounds(y);
    }
  }

  /** ceil(x) for a rational x. */
  function Ceil(x: real): int
  {
    -((-x).Floor)
  }

  lemma CeilIsLeast(x: real, m: int)
    ensures Ceil(x) as real >= x
    ensures m as real >= x ==> m >= Ceil(x)
  {
  }

  /** 1/d <= f exactly when d * f >= 1, for f > 0 and d >= 1. */
  lemma RecipAtMost(f: real, d: int)
    requires f > 0.0 && d >= 1
    ensures Recip(d) <= f <==> (d as real) >= 1.0 / f
  {
    var r := d as real;
    assert Recip(d) * r == 1.0;
    assert (1.0 / f) * f == 1.0;
    if Recip(d) <= f {
      assert 1.0 <= f * r;
    }
    if r >= 1.0 / f {
      assert r * f >= 1.0;
    }
  }

  /** Each d tried by gen_splits has 1/d <= f, so the remainder f - 1/d
      never goes negative. */
  lemma RemainderNonNegative(f: real, lo: int, d: int)
    requires f > 0.0 && lo >= 1 && d >= Max(lo, Ceil(1.0 / f))
    ensures f - Recip(d) >= 0.0
  {
    CeilIsLeast(1.0 / f, d);
    RecipAtMost(f, d);
  }

  function Max(a: int, b: int): int
  {
    if a >= b then a else b
  }

  /** Add d to every split of a sequence. */
  function AddEach(splits: seq<set<int>>, d: int): (r: seq<set<int>>)
    ensures |r| == |splits| && forall i :: 0 <= i < |r| ==> r[i] == splits[i] + {d}
  {
    seq(|splits|, i requires 0 <= i < |splits| => splits[i] + {d})
  }

  /** gen_splits(f, s, lo, hi), in the order it yields: the empty split for
      f == 0, nothing once no split is left, else the denominators d from
      max(lo, ceil(1/f)) to hi, each followed by the splits of f - 1/d. */
  function Splits(f: real, s: int, lo: int, hi: int): seq<set<int>>
    requires lo >= 1
    decreases if s < 0 then 0 else s, 1, 0
  {
    if f == 0.0 then [{}]
    else if s < 1 then []
    else Choices(f, s, Max(lo, Ceil(1.0 / f)), hi)
  }

  /** The for loop of gen_splits, from denominator d on. */
  function Choices(f: real, s: int, d: int, hi: int): seq<set<int>>
    requires d >= 1 && s >= 1
    decreases s, 0, if d > hi then 0 else hi - d + 1
  {
    if d > hi then []
    else AddEach(Splits(f - Recip(d), s - 1, d + 1, hi), d) + Choices(f, s, d + 1, hi)
  }

  /** Every split yielded is a set of at most s denominators in [lo, hi]
      whose reciprocals add up to f exactly. */
  lemma {:induction false} SplitsSound(f: real, s: int, lo: int, hi: int, t: set<int>)
    requires lo >= 1 && t in Splits(f, s, lo, hi)
    ensures Positive(t) && Within(t, lo, hi) && |t| <= Max(s, 0) && Sum(t) == f
    decreases if s < 0 then 0 else s, 1, 0
  {
    if f != 0.0 {
      ChoicesSound(f, s, Max(lo, Ceil(1.0 / f)), hi, t);
    }
  }

  lemma {:induction false} ChoicesSound(f: real, s: int, d: int, hi: int, t: set<int>)
    requires d >= 1 && s >= 1 && t in Choices(f, s, d, hi)
    ensures Positive(t) && Within(t, d, hi) && |t| <= s && Sum(t) == f
    decreases s, 0, if d > hi then 0 else hi - d + 1
  {
    var first := AddEach(Splits(f - Recip(d), s - 1, d + 1, hi), d);
    if t in first {
      var i :| 0 <= i < |first| && first[i] == t;
      var u := Splits(f - Recip(d), s - 1, d + 1, hi)[i];
      SplitsSound(f - Recip(d), s - 1, d + 1, hi, u);
      assert t == u + {d} && d !in u;
      SumRemove(t, d);
      assert t - {d} == u;
    } else {
      ChoicesSound(f, s, d + 1, hi, t);
    }
  }

  /** gen_splits(0, ...) yields the empty set and nothing else. */
  lemma SplitsOfZero(s: int, lo: int, hi: int)
    requires lo >= 1
    ensures Splits(0.0, s, lo, hi) == [{}]
  {
  }

  /** With no split left and f != 0, gen_splits yields nothing. */
  lemma SplitsExhausted(f: real, s: int, lo: int, hi: int)
    requires lo >= 1 && f != 0.0 && s < 1
    ensures Splits(f, s, lo, hi) == []
  {
  }

  /** A finite non-empty set of integers has a least element. */
  lemma {:induction false} Least(s: set<int>) returns (m: int)
    requires s != {}
    ensures m in s && forall x :: x in s ==> m <= x
    decreases |s|
  {
    Inhabited(s);
    var y :| y in s;
    if s == {y} {
      m := y;
    } else {
      var r := Least(s - {y});
      m := if y < r then y else r;
      assert forall x :: x in s ==> x == y || x in s - {y};
    }
  }

  /** Every set of at most s denominators in [lo, hi] whose reciprocals add
      up to f is among the splits gen_splits yields. */
  lemma {:induction false} SplitsComplete(f: real, s: int, lo: int, hi: int, t: set<int>)
    requires lo >= 1 && Positive(t) && Within(t, lo, hi) && |t| <= Max(s, 0) && Sum(t) == f
    ensures t in Splits(f, s, lo, hi)
    decreases |t|
  {
    SumPositive(t);
    if t != {} {
      var m := Least(t);
      var u := t - {m};
      SumRemove(t, m);
      SumPositive(u);
      RecipAtMost(f, m);
      CeilIsLeast(1.0 / f, m);
      SplitsComplete(f - Recip(m), s - 1, m + 1, hi, u);
      assert u + {m} == t;
      ChoicesContain(f, s, Max(lo, Ceil(1.0 / f)), m, hi, u);
    }
  }

  /** A split of f - 1/m with denominators above m, plus m, is among the
      choices from any d <= m. */
  lemma {:induction false} ChoicesContain(f: real, s: int, d: int, m: int, hi: int, u: set<int>)
    requires 1 <= d <= m <= hi && s >= 1 && u in Splits(f - Recip(m), s - 1, m + 1, hi)
    ensures u + {m} in Choices(f, s, d, hi)
    decreases m - d
  {
    var sub := Splits(f - Recip(d), s - 1, d + 1, hi);
    if d == m {
      var i :| 0 <= i < |sub| && sub[i] == u;
      assert AddEach(sub, d)[i] == u + {m};
    } else {
      ChoicesContain(f, s, d + 1, m, hi, u);
    }
  }

  /** 1/d falls as d grows. */
  lemma RecipDecreasing(d: int, e: int)
    requires 1 <= d < e
    ensures Recip(e) < Recip(d)
  {
    var x, y := d as real, e as real;
    assert Recip(d) * x == 1.0 && Recip(e) * y == 1.0;
    assert Recip(e) * x < Recip(e) * y;
    if Recip(e) >= Recip(d) {
      assert false;
    }
  }

  /** The splits of 1/d offered for each denominator d. */
  type SplitMap = map<int, set<set<int>>>

  /** splits.get(d, set()). */
  function Offered(splits: SplitMap, d: int): set<set<int>>
  {
    if d in splits then splits[d] else {}
  }

  /** Every offered split is a non-empty set of denominators in [1, top],
      so max() of a set built from them is defined. */
  predicate Usable(splits: SplitMap, top: int)
  {
    forall d, t :: d in splits && t in splits[d] ==> t != {} && Within(t, 1, top)
  }

  /** Every offered split of d is an Egyptian split of 1/d into
      denominators above d, as gen_splits produces them. */
  ghost predicate Genuine(splits: SplitMap)
  {
    forall d, t :: d in splits && t in splits[d] ==> SplitOf(d, t)
  }

  /** t is an Egyptian split of 1/d into denominators above d. */
  ghost predicate SplitOf(d: int, t: set<int>)
  {
    d >= 1 && Positive(t) && (forall x :: x in t ==> x > d) && Sum(t) == Recip(d)
  }

  /** The table main builds, d -> the splits gen_splits(1/d, s, d + 1, hi)
      yields, is genuine. */
  lemma GeneratedSplits(splits: SplitMap, s: int, hi: int)
    requires forall d :: d in splits ==> d >= 1 && forall t :: t in splits[d] <==> t in Splits(Recip(d), s, d + 1, hi)
    ensures Genuine(splits)
  {
    forall d, t | d in splits && t in splits[d]
      ensures SplitOf(d, t)
    {
      SplitsSound(Recip(d), s, d + 1, hi, t);
    }
  }

  /** A genuine split of 1/d has at least two denominators: none is empty,
      and a single denominator above d is too small. */
  lemma SplitSize(d: int, t: set<int>)
    requires d >= 1 && Positive(t) && (forall x :: x in t ==> x > d) && Sum(t) == Recip(d)
    ensures |t| >= 2
  {
    RecipBounds(d);
    SumPositive(t);
    Inhabited(t);
    var e :| e in t;
    if t == {e} {
      SumRemove(t, e);
      assert t - {e} == {};
      RecipDecreasing(d, e);
    } else {
      assert t - {e} != {};
      assert |t - {e}| == |t| - 1;
    }
  }

  /** ds - {d} | split. */
  function Child(ds: set<int>, d: int, split: set<int>): set<int>
  {
    ds - {d} + split
  }

  /** Replacing d by a disjoint split of at least two denominators makes
      the set strictly larger. */
  lemma ChildGrows(ds: set<int>, d: int, split: set<int>)
    requires d in ds && ds !! split && |split| >= 2
    ensures |Child(ds, d, split)| == |ds| - 1 + |split| > |ds|
  {
    assert |ds - {d}| == |ds| - 1;
  }

  /** Replacing d by a split of 1/d keeps the sum of the reciprocals. */
  lemma ChildSum(ds: set<int>, d: int, split: set<int>)
    requires Positive(ds) && Positive(split) && d in ds && ds !! split && Sum(split) == Recip(d)
    ensures Positive(Child(ds, d, split)) && Sum(Child(ds, d, split)) == Sum(ds)
  {
    SumRemove(ds, d);
    SumUnion(ds - {d}, split);
  }

  /** max(ds), found by looking down from a bound on the denominators. */
  function Largest(ds: set<int>, top: int): (m: int)
    requires ds != {} && Within(ds, 1, top)
    ensures m in ds && forall x :: x in ds ==> x <= m
    decreases top
  {
    Inhabited(ds);
    if top in ds then top else Largest(ds, top - 1)
  }

  /** sorted(ds) for the denominators of ds in [lo, hi]. */
  function Ascending(ds: set<int>, lo: int, hi: int): (r: seq<int>)
    ensures forall x :: x in r <==> x in ds && lo <= x <= hi
    ensures forall i, j :: 0 <= i < j < |r| ==> r[i] < r[j]
    decreases hi - lo
  {
    if lo > hi then []
    else
      var rest := Ascending(ds, lo + 1, hi);
      assert forall k :: 0 <= k < |rest| ==> rest[k] in rest;
      (if lo in ds then [lo] else []) + rest
  }

  /** The heap key (-len(ds), max(ds)) of a pops no later than that of b. */
  predicate PopsBefore(a: set<int>, b: set<int>, top: int)
    requires a != {} && Within(a, 1, top) && b != {} && Within(b, 1, top)
  {
    |a| > |b| || (|a| == |b| && Largest(a, top) <= Largest(b, top))
  }

  /** The sets on the heap: non-empty, with denominators in [1, top]. */
  predicate Entries(heap: seq<set<int>>, top: int)
  {
    forall e :: e in heap ==> e != {} && Within(e, 1, top)
  }

  /** The position heappop takes: a set with the smallest key, so the
      largest sets come first and, among them, the smallest maximum. */
  function MinKey(heap: seq<set<int>>, top: int): (i: nat)
    requires heap != [] && Entries(heap, top)
    ensures i < |heap| && heap[i] in heap && forall e :: e in heap ==> PopsBefore(heap[i], e, top)
  {
    var last := heap[|heap| - 1];
    assert last in heap;
    if |heap| == 1 then 0
    else
      var init := heap[..|heap| - 1];
      assert forall e :: e in init ==> e in heap;
      assert forall e :: e in heap ==> e in init || e == last;
      var i := MinKey(init, top);
      if PopsBefore(heap[i], heap[|heap| - 1], top) then i else |heap| - 1
  }

  /** Every set on the heap sums to the same total as the first. */
  ghost predicate SameTotal(heap: seq<set<int>>, total: real)
  {
    forall e :: e in heap ==> Positive(e) && Sum(e) == total
  }

  /** c is ds - {d} | split for some d of ds and some offered split of d
      disjoint from ds: one of the sets solve pushes after popping ds. */
  ghost predicate IsChild(ds: set<int>, splits: SplitMap, c: set<int>)
  {
    exists d, t :: d in ds && t in Offered(splits, d) && ds !! t && c == Child(ds, d, t)
  }

  /** A child keeps the heap's invariants; with genuine splits it has the
      same sum of reciprocals as its parent and strictly more denominators. */
  lemma ChildFacts(ds: set<int>, splits: SplitMap, top: int, c: set<int>)
    requires ds != {} && Within(ds, 1, top) && Usable(splits, top) && IsChild(ds, splits, c)
    ensures c != {} && Within(c, 1, top)
    ensures Genuine(splits) ==> Positive(c) && Sum(c) == Sum(ds) && |c| > |ds|
  {
    var d, t :| d in ds && t in Offered(splits, d) && ds !! t && c == Child(ds, d, t);
    assert t != {} && Within(t, 1, top);
    assert c != {} by {
      Inhabited(t);
      var x :| x in t;
      assert x in c;
    }
    if Genuine(splits) {
      ChildSum(ds, d, t);
      SplitSize(d, t);
      ChildGrows(ds, d, t);
    }
  }

  /** The set of the numbers in a list. */
  function Elements(s: seq<int>): set<int>
  {
    set x | x in s
  }

  /** A list solve yields: non-empty, strictly increasing (so sorted and
      without repeats), with denominators in [1, top]. */
  predicate Listed(s: seq<int>, top: int)
  {
    s != [] && Within(Elements(s), 1, top) && forall k, l :: 0 <= k < l < |s| ==> s[k] < s[l]
  }

  /** The reciprocals of every list add up to total. */
  ghost predicate Totals(out: seq<seq<int>>, total: real)
  {
    forall s :: s in out ==> Positive(Elements(s)) && Sum(Elements(s)) == total
  }

  /** Yielding sorted(ds) for a set ds taken from the heap. */
  lemma YieldStep(out: seq<seq<int>>, ds: set<int>, top: int, total: real, exact: bool)
    requires ds != {} && Within(ds, 1, top) && forall s :: s in out ==> Listed(s, top)
    requires exact ==> Totals(out, total) && Positive(ds) && Sum(ds) == total
    ensures forall s :: s in out + [Ascending(ds, 1, top)] ==> Listed(s, top)
    ensures exact ==> Totals(out + [Ascending(ds, 1, top)], total)
  {
    var sorted := Ascending(ds, 1, top);
    assert Elements(sorted) == ds;
    Inhabited(ds);
    var x :| x in ds;
    assert x in sorted;
    assert forall s :: s in out + [sorted] ==> s in out || s == sorted;
  }

  /** Taking the i-th set off the heap keeps the invariants of the rest. */
  lemma PopStep(heap: seq<set<int>>, i: nat, top: int, total: real, exact: bool)
    requires i < |heap| && Entries(heap, top) && (exact ==> SameTotal(heap, total))
    ensures heap[i] in heap
    ensures Entries(heap[..i] + heap[i + 1..], top)
    ensures exact ==> SameTotal(heap[..i] + heap[i + 1..], total)
  {
    assert heap == heap[..i] + [heap[i]] + heap[i + 1..];
    var rest := heap[..i] + heap[i + 1..];
    forall e | e in rest
      ensures e != {} && Within(e, 1, top)
    {
      assert e in heap;
    }
    assert Entries(rest, top);
  }

  /** Pushing the children of ds keeps the invariants of the heap. */
  lemma PushStep(heap: seq<set<int>>, ds: set<int>, kids: seq<set<int>>, splits: SplitMap, top: int, total: real)
    requires Entries(heap, top) && ds != {} && Within(ds, 1, top) && Usable(splits, top)
    requires forall c :: c in kids ==> IsChild(ds, splits, c)
    requires Genuine(splits) ==> SameTotal(heap, total) && Positive(ds) && Sum(ds) == total
    ensures Entries(heap + kids, top)
    ensures Genuine(splits) ==> SameTotal(heap + kids, total)
  {
    forall c | c in kids
      ensures c != {} && Within(c, 1, top)
      ensures Genuine(splits) ==> Positive(c) && Sum(c) == total
    {
      ChildFacts(ds, splits, top, c);
    }
  }

  /** solve(ds, splits): pop the set with the smallest key, yield it sorted
      and push every set obtained by replacing one of its denominators d by
      an offered split disjoint from it. The loop yields at most `fuel`
      lists; `top` bounds every denominator in play. With genuine splits
      every list has the same sum of reciprocals as the start set. */
  method Solve(start: set<int>, splits: SplitMap, top: int, fuel: nat) returns (out: seq<seq<int>>)
    requires start != {} && Within(start, 1, top) && Usable(splits, top)
    ensures |out| <= fuel
    ensures fuel > 0 ==> |out| >= 1 && out[0] == Ascending(start, 1, top)
    ensures forall s :: s in out ==> Listed(s, top)
    ensures Genuine(splits) ==> Totals(out, Sum(start))
  {
    var heap := [start];
    out := [];
    ghost var total := Sum(start);
    ghost var exact := Genuine(splits);
    while heap != [] && |out| < fuel
      invariant Entries(heap, top) && |out| <= fuel
      invariant out == [] ==> heap == [start]
      invariant out != [] ==> out[0] == Ascending(start, 1, top)
      invariant forall s :: s in out ==> Listed(s, top)
      invariant exact ==> SameTotal(heap, total) && Totals(out, total)
      decreases fuel - |out|
    {
      var i := MinKey(heap, top);
      var ds := heap[i];
      PopStep(heap, i, top, total, exact);
      heap := heap[..i] + heap[i + 1..];
      YieldStep(out, ds, top, total, exact);
      out := out + [Ascending(ds, 1, top)];
      var kids := Expand(ds, splits, top);
      PushStep(heap, ds, kids, splits, top, total);
      heap := heap + kids;
    }
  }

  /** The two for loops of solve: every set pushed after popping ds, in
      the order they are pushed. */
  method Expand(ds: set<int>, splits: SplitMap, top: int) returns (kids: seq<set<int>>)
    requires ds != {} && Within(ds, 1, top) && Usable(splits, top)
    ensures forall c :: c in kids ==> IsChild(ds, splits, c)
    ensures forall d, t :: d in ds && t in Offered(splits, d) && ds !! t ==> Child(ds, d, t) in kids
  {
    kids := [];
    var rest := ds;
    while rest != {}
      invariant rest <= ds
      invariant forall c :: c in kids ==> IsChild(ds, splits, c)
      invariant forall d, t :: d in ds - rest && t in Offered(splits, d) && ds !! t ==> Child(ds, d, t) in kids
      decreases rest
    {
      if forall v :: v !in rest {
        assert false;
      }
      var d :| d in rest;
      rest := rest - {d};
      var options := Offered(splits, d);
      while options != {}
        invariant options <= Offered(splits, d)
        invariant forall c :: c in kids ==> IsChild(ds, splits, c)
        invariant forall d', t :: d' in ds - rest - {d} && t in Offered(splits, d') && ds !! t ==> Child(ds, d', t) in kids
        invariant forall t :: t in Offered(splits, d) - options && ds !! t ==> Child(ds, d, t) in kids
        decreases options
      {
        if forall v :: v !in options {
          assert false;
        }
        var split :| split in options;
        options := options - {split};
        if ds !! split {
          var child := ds - {d} + split;
          assert IsChild(ds, splits, child) by {
            assert child == Child(ds, d, split);
          }
          kids := kids + [child];
        }
      }
    }
  }
}
