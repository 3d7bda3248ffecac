/** itertools.combinations(range(n), k) and itertools.permutations(range(t), k)
    as recursive functions, in the order itertools produces them. */
module Combinatorics {
  import opened Numbers

  predicate StrictlyIncreasing(s: seq<nat>)
  {
    forall i, j :: 0 <= i < j < |s| ==> s[i] < s[j]
  }

  predicate Distinct<T(==)>(s: seq<T>)
  {
    forall i, j :: 0 <= i < j < |s| ==> s[i] != s[j]
  }

  predicate Below(s: seq<nat>, n: nat)
  {
    forall i :: 0 <= i < |s| ==> s[i] < n
  }

  /** Strict lexicographic order on sequences of naturals. */
  predicate LexLess(a: seq<nat>, b: seq<nat>)
  {
    if a == [] then b != []
    else b != [] && (a[0] < b[0] || (a[0] == b[0] && LexLess(a[1..], b[1..])))
  }

  function PrependAll(x: nat, cs: seq<seq<nat>>): (r: seq<seq<nat>>)
    ensures |r| == |cs|
    ensures forall i :: 0 <= i < |cs| ==> r[i] == [x] + cs[i]
  {
    if cs == [] then [] else [[x] + cs[0]] + PrependAll(x, cs[1..])
  }

  /** combinations(range(lo, n), k). */
  function CombinationsFrom(lo: nat, n: nat, k: nat): seq<seq<nat>>
    decreases n - lo, k
  {
    if k == 0 then [[]]
    else if lo >= n then []
    else PrependAll(lo, CombinationsFrom(lo + 1, n, k - 1)) + CombinationsFrom(lo + 1, n, k)
  }

  /** combinations(range(n), k). */
  function Combinations(n: nat, k: nat): seq<seq<nat>>
  {
    CombinationsFrom(0, n, k)
  }

  predicate IsCombination(c: seq<nat>, lo: nat, n: nat, k: nat)
  {
    |c| == k && StrictlyIncreasing(c) && forall i :: 0 <= i < |c| ==> lo <= c[i] < n
  }

  lemma PrependAllMembers(x: nat, cs: seq<seq<nat>>, c: seq<nat>)
    ensures c in PrependAll(x, cs) <==> c != [] && c[0] == x && c[1..] in cs
  {
    var r := PrependAll(x, cs);
    if c in r {
      var i :| 0 <= i < |r| && r[i] == c;
      assert c[1..] == cs[i];
    }
    if c != [] && c[0] == x && c[1..] in cs {
      var i :| 0 <= i < |cs| && cs[i] == c[1..];
      assert r[i] == c;
    }
  }

  /** An increasing k-tuple from [lo, n) either starts with lo or is drawn from [lo + 1, n). */
  lemma IsCombinationSplit(c: seq<nat>, lo: nat, n: nat, k: nat)
    requires k >= 1 && lo < n
    ensures IsCombination(c, lo, n, k) <==>
      (c != [] && c[0] == lo && IsCombination(c[1..], lo + 1, n, k - 1)) || IsCombination(c, lo + 1, n, k)
  {
    if IsCombination(c, lo, n, k) && c[0] == lo {
      forall i | 0 <= i < |c[1..]| ensures lo + 1 <= c[1..][i] {
        assert c[0] < c[i + 1];
      }
    }
    if IsCombination(c, lo, n, k) && c[0] != lo {
      forall i | 0 <= i < |c| ensures lo + 1 <= c[i] {
        if i > 0 { assert c[0] < c[i]; }
      }
    }
    if c != [] && c[0] == lo && IsCombination(c[1..], lo + 1, n, k - 1) {
      forall i, j | 0 <= i < j < |c| ensures c[i] < c[j] {
        assert c[j] == c[1..][j - 1];
        if i > 0 { assert c[i] == c[1..][i - 1]; }
      }
      forall i | 0 <= i < |c| ensures lo <= c[i] < n {
        if i > 0 { assert c[i] == c[1..][i - 1]; }
      }
    }
  }

  /** The combinations are exactly the increasing k-tuples drawn from [lo, n). */
  lemma {:induction false} CombinationsMembers(lo: nat, n: nat, k: nat, c: seq<nat>)
    ensures c in CombinationsFrom(lo, n, k) <==> IsCombination(c, lo, n, k)
    decreases n - lo, k
  {
    if k != 0 && lo < n {
      var sub := CombinationsFrom(lo + 1, n, k - 1);
      var right := CombinationsFrom(lo + 1, n, k);
      var left := PrependAll(lo, sub);
      assert CombinationsFrom(lo, n, k) == left + right;
      assert c in left + right <==> c in left || c in right;
      PrependAllMembers(lo, sub, c);
      CombinationsMembers(lo + 1, n, k, c);
      var first := c != [] && c[0] == lo && IsCombination(c[1..], lo + 1, n, k - 1);
      if c != [] {
        CombinationsMembers(lo + 1, n, k - 1, c[1..]);
      }
      assert c in left <==> first;
      IsCombinationSplit(c, lo, n, k);
    } else if k != 0 && |c| == k {
      assert !(lo <= c[0] < n);
    }
  }

  /** There are C(n - lo, k) of them. */
  lemma {:induction false} CombinationsCount(lo: nat, n: nat, k: nat)
    ensures |CombinationsFrom(lo, n, k)| == Binomial(if lo <= n then n - lo else 0, k)
    decreases n - lo, k
  {
    if k == 0 {
    } else if lo >= n {
    } else {
      CombinationsCount(lo + 1, n, k - 1);
      CombinationsCount(lo + 1, n, k);
    }
  }

  lemma {:induction false} LexLessPrepend(x: nat, a: seq<nat>, b: seq<nat>)
    requires LexLess(a, b)
    ensures LexLess([x] + a, [x] + b)
  {
    assert ([x] + a)[1..] == a && ([x] + b)[1..] == b;
  }

  /** Each sequence comes strictly after the ones before it in lexicographic order. */
  predicate LexSorted(cs: seq<seq<nat>>)
  {
    forall i, j :: 0 <= i < j < |cs| ==> LexLess(cs[i], cs[j])
  }

  /** Each combination comes strictly after the previous one in lexicographic
      order, so every k-subset is produced exactly once. */
  lemma {:induction false} CombinationsSorted(lo: nat, n: nat, k: nat)
    ensures LexSorted(CombinationsFrom(lo, n, k))
    decreases n - lo, k
  {
    if k != 0 && lo < n {
      var sub := CombinationsFrom(lo + 1, n, k - 1);
      var left := PrependAll(lo, sub);
      var right := CombinationsFrom(lo + 1, n, k);
      assert CombinationsFrom(lo, n, k) == left + right;
      CombinationsSorted(lo + 1, n, k - 1);
      CombinationsSorted(lo + 1, n, k);
      SortedConcat(lo, sub, right, n, k);
    }
  }

  lemma SortedConcat(lo: nat, sub: seq<seq<nat>>, right: seq<seq<nat>>, n: nat, k: nat)
    requires k >= 1 && right == CombinationsFrom(lo + 1, n, k)
    requires LexSorted(sub) && LexSorted(right)
    ensures LexSorted(PrependAll(lo, sub) + right)
  {
    var left := PrependAll(lo, sub);
    var cs := left + right;
    forall i, j | 0 <= i < j < |cs| ensures LexLess(cs[i], cs[j]) {
      if j < |left| {
        LexLessPrepend(lo, sub[i], sub[j]);
      } else if i < |left| {
        var r := right[j - |left|];
        CombinationsMembers(lo + 1, n, k, r);
        assert cs[i][0] == lo < r[0];
      } else {
        assert cs[i] == right[i - |left|] && cs[j] == right[j - |left|];
      }
    }
  }

  lemma {:induction false} LexLessIrreflexive(a: seq<nat>)
    ensures !LexLess(a, a)
  {
    if a != [] {
      LexLessIrreflexive(a[1..]);
    }
  }

  lemma CombinationsDistinct(n: nat, k: nat)
    ensures Distinct(Combinations(n, k))
  {
    CombinationsSorted(0, n, k);
    var cs := Combinations(n, k);
    forall i, j | 0 <= i < j < |cs| ensures cs[i] != cs[j] {
      LexLessIrreflexive(cs[i]);
    }
  }

  /** itertools.permutations(range(t), k) restricted to values outside `used`:
      every k-tuple of distinct values below t, in lexicographic order. */
  function Arrangements(t: nat, k: nat, used: set<nat>): seq<seq<nat>>
    decreases k, t + 1
  {
    if k == 0 then [[]] else ArrangementsFrom(t, k, used, 0)
  }

  function ArrangementsFrom(t: nat, k: nat, used: set<nat>, v: nat): seq<seq<nat>>
    requires k >= 1
    decreases k, t - v
  {
    if v >= t then []
    else (if v in used then [] else PrependAll(v, Arrangements(t, k - 1, used + {v})))
         + ArrangementsFrom(t, k, used, v + 1)
  }

  predicate IsArrangement(a: seq<nat>, t: nat, k: nat, used: set<nat>)
  {
    |a| == k && Distinct(a) && Below(a, t) && forall i :: 0 <= i < |a| ==> a[i] !in used
  }

  lemma {:induction false} ArrangementsMembers(t: nat, k: nat, used: set<nat>, a: seq<nat>)
    ensures a in Arrangements(t, k, used) <==> IsArrangement(a, t, k, used)
    decreases k, t + 1
  {
    if k >= 1 {
      ArrangementsFromMembers(t, k, used, 0, a);
    }
  }

  lemma {:induction false} ArrangementsFromMembers(t: nat, k: nat, used: set<nat>, v: nat, a: seq<nat>)
    requires k >= 1
    ensures a in ArrangementsFrom(t, k, used, v) <==> IsArrangement(a, t, k, used) && v <= a[0]
    decreases k, t - v
  {
    if v >= t {
      if IsArrangement(a, t, k, used) {
        assert a[0] < t;
      }
    } else {
      var sub := Arrangements(t, k - 1, used + {v});
      var here := if v in used then [] else PrependAll(v, sub);
      var rest := ArrangementsFrom(t, k, used, v + 1);
      assert ArrangementsFrom(t, k, used, v) == here + rest;
      assert a in here + rest <==> a in here || a in rest;
      ArrangementsFromMembers(t, k, used, v + 1, a);
      if v !in used {
        PrependAllMembers(v, sub, a);
        if a != [] {
          ArrangementsMembers(t, k - 1, used + {v}, a[1..]);
        }
        HeadArrangement(a, t, k, used, v);
      } else if IsArrangement(a, t, k, used) {
        assert a[0] !in used;
      }
    }
  }

  /** An arrangement starting with the unused value v is v followed by an
      arrangement of the values other than v. */
  lemma HeadArrangement(a: seq<nat>, t: nat, k: nat, used: set<nat>, v: nat)
    requires k >= 1 && v < t && v !in used
    ensures (a != [] && a[0] == v && IsArrangement(a[1..], t, k - 1, used + {v})) <==>
      (IsArrangement(a, t, k, used) && a[0] == v)
  {
    if a != [] && a[0] == v && IsArrangement(a[1..], t, k - 1, used + {v}) {
      forall i, j | 0 <= i < j < |a| ensures a[i] != a[j] {
        assert a[j] == a[1..][j - 1];
        if i > 0 { assert a[i] == a[1..][i - 1]; }
      }
      forall i | 0 <= i < |a| ensures a[i] < t && a[i] !in used {
        if i > 0 { assert a[i] == a[1..][i - 1]; }
      }
    }
    if IsArrangement(a, t, k, used) && a[0] == v {
      forall i | 0 <= i < |a[1..]| ensures a[1..][i] != v && a[1..][i] < t && a[1..][i] !in used {
        assert a[0] != a[i + 1];
      }
      forall i, j | 0 <= i < j < |a[1..]| ensures a[1..][i] != a[1..][j] {
        assert a[i + 1] != a[j + 1];
      }
    }
  }
}
