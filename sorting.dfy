/** Python's sorted() on integer sequences and on sets of integers. */
module Sorting {

  predicate Ascending(s: seq<int>)
  {
    forall i, j :: 0 <= i < j < |s| ==> s[i] <= s[j]
  }

  predicate StrictlyAscending(s: seq<int>)
  {
    forall i, j :: 0 <= i < j < |s| ==> s[i] < s[j]
  }

  predicate Descending(s: seq<int>)
  {
    forall i, j :: 0 <= i < j < |s| ==> s[i] >= s[j]
  }

  function Insert(x: int, s: seq<int>): (r: seq<int>)
    requires Ascending(s)
    ensures Ascending(r) && multiset(r) == multiset(s) + multiset{x}
  {
    if s == [] then [x]
    else if x <= s[0] then
      AscendingCons(x, s);
      [x] + s
    else
      var rest := Insert(x, s[1..]);
      InsertHead(x, s, rest);
      AscendingCons(s[0], rest);
      [s[0]] + rest
  }

  /** A head no larger than anything after it keeps a sequence ascending. */
  lemma AscendingCons(h: int, t: seq<int>)
    requires Ascending(t) && (t == [] || h <= t[0])
    ensures Ascending([h] + t)
  {
    var r := [h] + t;
    forall i, j | 0 <= i < j < |r| ensures r[i] <= r[j] {
      if i > 0 {
        assert r[i] == t[i - 1] && r[j] == t[j - 1];
      } else {
        assert r[j] == t[j - 1] && t[0] <= t[j - 1];
      }
    }
  }

  lemma InsertHead(x: int, s: seq<int>, rest: seq<int>)
    requires s != [] && Ascending(s) && s[0] < x
    requires multiset(rest) == multiset(s[1..]) + multiset{x}
    ensures forall y :: y in rest ==> s[0] <= y
    ensures rest != [] ==> s[0] <= rest[0]
    ensures multiset([s[0]] + rest) == multiset(s) + multiset{x}
  {
    assert s == [s[0]] + s[1..];
    forall y | y in rest ensures s[0] <= y {
      assert y in multiset(rest);
      if y != x {
        assert y in multiset(s[1..]);
        var i :| 0 <= i < |s[1..]| && s[1..][i] == y;
        assert s[i + 1] == y;
      }
    }
    if rest != [] {
      assert rest[0] in rest;
    }
  }

  /** sorted(s): an ascending rearrangement of s. */
  function Sort(s: seq<int>): (r: seq<int>)
    ensures Ascending(r) && multiset(r) == multiset(s)
    ensures |r| == |s| && forall x :: x in r <==> x in s
  {
    if s == [] then []
    else
      var r := Insert(s[|s| - 1], Sort(s[..|s| - 1]));
      assert s == s[..|s| - 1] + [s[|s| - 1]];
      assert multiset(r) == multiset(s);
      assert forall x :: x in r <==> x in multiset(r);
      assert forall x :: x in s <==> x in multiset(s);
      r
  }

  /** sorted() of values that are pairwise different is strictly
      increasing. */
  lemma SortStrict(s: seq<int>)
    requires forall i, j :: 0 <= i < j < |s| ==> s[i] != s[j]
    ensures StrictlyAscending(Sort(s))
  {
    var r := Sort(s);
    forall i, j | 0 <= i < j < |r|
      ensures r[i] < r[j]
    {
      StrictAt(s, r, i, j);
    }
  }

  /** Two positions of an ascending rearrangement of pairwise different
      values hold different values. */
  lemma StrictAt(s: seq<int>, r: seq<int>, i: int, j: int)
    requires forall i, j :: 0 <= i < j < |s| ==> s[i] != s[j]
    requires Ascending(r) && multiset(r) == multiset(s) && 0 <= i < j < |r|
    ensures r[i] < r[j]
  {
    if r[i] == r[j] {
      TwiceCounted(r, i, j);
      DistinctOnce(s, r[i]);
    }
  }

  /** A value at two positions occurs at least twice. */
  lemma TwiceCounted(r: seq<int>, i: int, j: int)
    requires 0 <= i < j < |r| && r[i] == r[j]
    ensures multiset(r)[r[i]] >= 2
  {
    assert r == r[..i] + [r[i]] + r[i + 1..j] + [r[j]] + r[j + 1..];
  }

  /** In pairwise different values, each value occurs at most once. */
  lemma {:induction false} DistinctOnce(s: seq<int>, v: int)
    requires forall i, j :: 0 <= i < j < |s| ==> s[i] != s[j]
    ensures multiset(s)[v] <= 1
    decreases |s|
  {
    if s != [] {
      var init := s[..|s| - 1];
      assert s == init + [s[|s| - 1]];
      DistinctOnce(init, v);
    }
  }

  /** x put into a descending sequence before the first element below it. */
  function InsertDescending(x: int, s: seq<int>): (r: seq<int>)
    requires Descending(s)
    ensures Descending(r) && multiset(r) == multiset(s) + multiset{x}
  {
    if s == [] then [x]
    else if x >= s[0] then
      DescendingCons(x, s);
      [x] + s
    else
      var rest := InsertDescending(x, s[1..]);
      assert s == [s[0]] + s[1..];
      BoundedInsert(x, s[1..], rest, s[0]);
      assert rest != [] ==> rest[0] in rest;
      DescendingCons(s[0], rest);
      [s[0]] + rest
  }

  /** A rearrangement of a bounded sequence and a bounded value is bounded. */
  lemma BoundedInsert(x: int, s: seq<int>, r: seq<int>, b: int)
    requires x <= b && (forall i :: 0 <= i < |s| ==> s[i] <= b)
    requires multiset(r) == multiset(s) + multiset{x}
    ensures forall y :: y in r ==> y <= b
  {
    forall y | y in r
      ensures y <= b
    {
      assert y in multiset(r);
      if y != x {
        assert y in multiset(s);
      }
    }
  }

  /** A head no smaller than the rest keeps a sequence descending. */
  lemma DescendingCons(h: int, t: seq<int>)
    requires Descending(t) && (t == [] || h >= t[0])
    ensures Descending([h] + t)
  {
    var r := [h] + t;
    forall i, j | 0 <= i < j < |r| ensures r[i] >= r[j] {
      if i > 0 {
        assert r[i] == t[i - 1] && r[j] == t[j - 1];
      } else {
        assert r[j] == t[j - 1] && t[0] >= t[j - 1];
      }
    }
  }

  /** sorted(s, reverse=True): a descending rearrangement of s. */
  function SortDescending(s: seq<int>): (r: seq<int>)
    ensures Descending(r) && multiset(r) == multiset(s)
    ensures |r| == |s| && forall x :: x in r <==> x in s
  {
    if s == [] then []
    else
      var r := InsertDescending(s[|s| - 1], SortDescending(s[..|s| - 1]));
      assert s == s[..|s| - 1] + [s[|s| - 1]];
      assert multiset(r) == multiset(s);
      assert forall x :: x in r <==> x in multiset(r);
      assert forall x :: x in s <==> x in multiset(s);
      r
  }

  /** sorted(s) for a set: its elements in increasing order, each once. */
  function SortSet(s: set<int>): (r: seq<int>)
    ensures StrictlyAscending(r) && |r| == |s|
    ensures forall x :: x in r <==> x in s
    decreases |s|
  {
    if s == {} then []
    else
      var m := SetMax(s);
      var rest := SortSet(s - {m});
      rest + [m]
  }

  function SetMax(s: set<int>): (m: int)
    requires s != {}
    ensures m in s && forall x :: x in s ==> x <= m
  {
    SetMaxExists(s);
    var m :| m in s && forall x :: x in s ==> x <= m;
    m
  }

  lemma SetMaxExists(s: set<int>)
    requires s != {}
    ensures exists m :: m in s && forall x :: x in s ==> x <= m
    decreases |s|
  {

    var y := Pick(s);
    if s == {y} {
      assert forall x :: x in s ==> x <= y;
    } else {
      SetMaxExists(s - {y});
      var m :| m in s - {y} && forall x :: x in s - {y} ==> x <= m;
      var top := if y > m then y else m;
      forall x | x in s ensures x <= top {
        if x != y { assert x in s - {y}; }
      }
      assert top in s;
    }
  }

  lemma Pick(s: set<int>) returns (y: int)
    requires s != {}
    ensures y in s
  {
    if forall x :: x !in s {
      assert false;
    }
    y :| y in s;
  }
}
