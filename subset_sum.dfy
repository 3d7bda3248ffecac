/** "De un à dix-sept": draw some of the tokens 1 to 17 and ask whether a
    part of them adds up to 18. has_sum grows the set of reachable sums
    token by token, keeping only sums that do not pass the target. */
module SubsetSum {
  import opened Numbers
  import opened Combinatorics
  import opened Sorting

  /** Every sum of a sub-collection of the tokens, the empty one included. */
  function Sums(tokens: seq<int>): set<int>
    decreases |tokens|
  {
    if tokens == [] then {0}
    else
      var before := Sums(tokens[..|tokens| - 1]);
      before + set s | s in before :: s + tokens[|tokens| - 1]
  }

  /** The sum of the tokens a mask picks, each at most once. */
  function SumOf(tokens: seq<int>, mask: seq<bool>): int
    requires |mask| == |tokens|
    decreases |tokens|
  {
    if tokens == [] then 0
    else
      var last := |tokens| - 1;
      SumOf(tokens[..last], mask[..last]) + (if mask[last] then tokens[last] else 0)
  }

  /** The reachable sums are exactly the sums of the sub-collections of the
      tokens, each token used at most once. */
  lemma {:induction false} SumsAreSubsetSums(tokens: seq<int>, s: int)
    ensures s in Sums(tokens) <==> exists mask :: |mask| == |tokens| && SumOf(tokens, mask) == s
    decreases |tokens|
  {
    if tokens == [] {
      assert SumOf([], []) == 0;
    } else {
      var last := |tokens| - 1;
      var init := tokens[..last];
      var x := tokens[last];
      if s in Sums(tokens) {
        if s in Sums(init) {
          SumsAreSubsetSums(init, s);
          var mask :| |mask| == last && SumOf(init, mask) == s;
          var m := mask + [false];
          assert m[..last] == mask;
          assert SumOf(tokens, m) == s;
        } else {
          var t :| t in Sums(init) && s == t + x;
          SumsAreSubsetSums(init, t);
          var mask :| |mask| == last && SumOf(init, mask) == t;
          var m := mask + [true];
          assert m[..last] == mask;
          assert SumOf(tokens, m) == s;
        }
      } else {
        forall mask | |mask| == |tokens|
          ensures SumOf(tokens, mask) != s
        {
          var rest := SumOf(init, mask[..last]);
          SumsAreSubsetSums(init, rest);
          assert rest in Sums(init);
          if mask[last] {
            assert rest + x in Sums(tokens);
          }
        }
      }
    }
  }

  predicate Positive(tokens: seq<int>)
  {
    forall i :: 0 <= i < |tokens| ==> tokens[i] >= 1
  }

  /** The sums of the first k tokens that do not pass the target: the set
      has_sum keeps. */
  function Kept(tokens: seq<int>, target: int): set<int>
  {
    set s | s in Sums(tokens) && s <= target
  }

  /** The kept sums always hold 0 and nothing above the target. */
  lemma {:induction false} KeptBounds(tokens: seq<int>, target: int)
    requires target >= 0
    ensures 0 in Kept(tokens, target)
    ensures forall s :: s in Kept(tokens, target) ==> s <= target
    decreases |tokens|
  {
    if tokens != [] {
      KeptBounds(tokens[..|tokens| - 1], target);
    }
  }

  /** One token more: a sum is kept when it was kept already, or when it
      is a kept sum plus the token and stays at most the target. */
  lemma KeptStep(tokens: seq<int>, x: int, target: int)
    requires x >= 1
    ensures forall v :: v in Kept(tokens + [x], target) <==>
      v in Kept(tokens, target) || (v - x in Kept(tokens, target) && v <= target)
  {
    var t := tokens + [x];
    assert t[..|t| - 1] == tokens;
    forall v | v in Kept(t, target) && v !in Kept(tokens, target)
      ensures v - x in Kept(tokens, target)
    {
      var u :| u in Sums(tokens) && v == u + x;
    }
    forall v | v - x in Kept(tokens, target) && v <= target
      ensures v in Kept(t, target)
    {
      assert (v - x) + x in Sums(t);
    }
  }

  /** The sums `xs` shifted by the token, when they stay at most the
      target. */
  function Shifts(xs: seq<int>, token: int, target: int): set<int>
  {
    if xs == [] then {}
    else
      var last := xs[|xs| - 1];
      Shifts(xs[..|xs| - 1], token, target) + (if last + token <= target then {last + token} else {})
  }

  /** One more element of the listing. */
  lemma ShiftsPrefix(xs: seq<int>, i: nat, token: int, target: int)
    requires i < |xs|
    ensures Shifts(xs[..i + 1], token, target)
      == Shifts(xs[..i], token, target) + (if xs[i] + token <= target then {xs[i] + token} else {})
  {
    assert xs[..i + 1][..i] == xs[..i];
  }

  lemma {:induction false} ShiftsMembers(xs: seq<int>, token: int, target: int, v: int)
    ensures v in Shifts(xs, token, target) <==> v - token in xs && v <= target
    decreases |xs|
  {
    if xs != [] {
      ShiftsMembers(xs[..|xs| - 1], token, target, v);
      assert xs == xs[..|xs| - 1] + [xs[|xs| - 1]];
    }
  }

  /** Shifting a listing of a set shifts the set. */
  lemma ShiftsOfSet(xs: seq<int>, sums: set<int>, token: int, target: int)
    requires forall x :: x in xs <==> x in sums
    ensures forall v :: v in Shifts(xs[..|xs|], token, target) <==> v - token in sums && v <= target
  {
    assert xs[..|xs|] == xs;
    forall v
      ensures v in Shifts(xs, token, target) <==> v - token in sums && v <= target
    {
      ShiftsMembers(xs, token, target, v);
    }
  }

  /** The order in which the set is walked. Python's order is not
      specified; the model walks the set in increasing order, and the
      outcome does not depend on it. */
  method Listing(sums: set<int>) returns (order: seq<int>)
    ensures forall x :: x in order <==> x in sums
  {
    order := SortSet(sums);
  }

  /** The inner loop of has_sum for one token: whether some kept sum plus
      the token hits the target, and otherwise the new sums that stay at
      most the target. */
  method AddToken(sums: set<int>, token: int, target: int) returns (hit: bool, newSums: set<int>)
    ensures hit <==> target - token in sums
    ensures !hit ==> forall v :: v in newSums <==> v - token in sums && v <= target
  {
    var order := Listing(sums);
    newSums := {};
    for i := 0 to |order|
      invariant newSums == Shifts(order[..i], token, target)
      invariant forall j :: 0 <= j < i ==> order[j] + token != target
    {
      var s := order[i];
      ShiftsPrefix(order, i, token, target);
      var newSum := token + s;
      if newSum == target {
        assert s in order;
        return true, newSums;
      }
      if newSum <= target {
        newSums := newSums + {newSum};
      }
    }
    ShiftsOfSet(order, sums, token, target);
    NoHit(order, sums, token, target);
    return false, newSums;
  }

  /** No listed sum plus the token hits the target, so the target minus the
      token is not a sum. */
  lemma NoHit(order: seq<int>, sums: set<int>, token: int, target: int)
    requires forall x :: x in order <==> x in sums
    requires forall j :: 0 <= j < |order| ==> order[j] + token != target
    ensures target - token !in sums
  {
  }

  /** has_sum(tokens, target_sum). */
  method HasSum(tokens: seq<int>, target: int) returns (found: bool)
    requires Positive(tokens) && target >= 1
    ensures found <==> target in Sums(tokens)
  {
    var sums: set<int> := {0};
    var k := 0;
    while k < |tokens|
      invariant k <= |tokens|
      invariant sums == Kept(tokens[..k], target)
      invariant target !in Sums(tokens[..k])
    {
      var token := tokens[k];
      var hit, newSums := AddToken(sums, token, target);
      TokenStep(tokens, k, target, sums, newSums);
      if hit {
        return true;
      }
      sums := sums + newSums;
      k := k + 1;
    }
    assert tokens[..k] == tokens;
    return false;
  }

  /** One pass of has_sum's outer loop: the target is reached with token k
      exactly when the target minus the token is kept, and then every
      token together reaches it; otherwise the kept sums with the inner
      loop's new sums are the kept sums of one more token. */
  lemma TokenStep(tokens: seq<int>, k: nat, target: int, sums: set<int>, newSums: set<int>)
    requires Positive(tokens) && k < |tokens| && target !in Sums(tokens[..k])
    requires sums == Kept(tokens[..k], target)
    requires target - tokens[k] !in sums ==>
      forall v :: v in newSums <==> v - tokens[k] in sums && v <= target
    ensures target - tokens[k] in sums ==> target in Sums(tokens)
    ensures target - tokens[k] !in sums ==> target !in Sums(tokens[..k + 1])
    ensures target - tokens[k] !in sums ==> sums + newSums == Kept(tokens[..k + 1], target)
  {
    var token := tokens[k];
    var next := tokens[..k + 1];
    assert next == tokens[..k] + [token];
    HitStep(tokens[..k], token, target);
    KeptStep(tokens[..k], token, target);
    if target - token in sums {
      assert next + tokens[k + 1..] == tokens;
      SumsGrow(next, tokens[k + 1..]);
    } else {
      forall v
        ensures v in sums + newSums <==> v in Kept(next, target)
      {
      }
    }
  }

  /** With the target not yet reachable, one more token reaches it exactly
      when the target minus the token is a kept sum. */
  lemma HitStep(tokens: seq<int>, x: int, target: int)
    requires x >= 1 && target !in Sums(tokens)
    ensures target in Sums(tokens + [x]) <==> target - x in Kept(tokens, target)
  {
    var t := tokens + [x];
    assert t[..|t| - 1] == tokens;
    if target - x in Kept(tokens, target) {
      assert (target - x) + x in Sums(t);
    }
  }

  /** More tokens never lose a sum. */
  lemma {:induction false} SumsGrow(tokens: seq<int>, more: seq<int>)
    ensures Sums(tokens) <= Sums(tokens + more)
    decreases |more|
  {
    if more == [] {
      assert tokens + more == tokens;
    } else {
      var init := more[..|more| - 1];
      SumsGrow(tokens, init);
      var all := tokens + more;
      assert all[..|all| - 1] == tokens + init;
      assert Sums(tokens + init) <= Sums(all);
    }
  }

  /** With no token there is nothing to add up to a positive target. */
  lemma NoTokens(target: int)
    requires target >= 1
    ensures target !in Sums([])
  {
  }

  /** The number of draws among the first n that reach the target. */
  function Reaching(draws: seq<seq<int>>, target: int, n: nat): (r: nat)
    requires n <= |draws|
    ensures r <= n
  {
    if n == 0 then 0
    else Reaching(draws, target, n - 1) + (if target in Sums(draws[n - 1]) then 1 else 0)
  }

  /** main(taken_tokens, tokens, target_sum): the number of draws of
      `taken` tokens among 1 to `count` that reach the target, and the
      number of draws; the source returns their ratio. */
  method DrawRatio(taken: nat, count: nat, target: int) returns (successes: nat, total: nat)
    requires target >= 1
    ensures total == |Draws(taken, count)|
    ensures successes == Reaching(Draws(taken, count), target, total)
  {
    var draws := Draws(taken, count);
    successes, total := 0, 0;
    while total < |draws|
      invariant total <= |draws|
      invariant successes == Reaching(draws, target, total)
    {
      DrawPositive(taken, count, total);
      var ok := HasSum(draws[total], target);
      if ok {
        successes := successes + 1;
      }
      total := total + 1;
    }
  }

  /** There are C(count, taken) draws, so the ratio is a fraction in [0, 1]
      when there is at least one. */
  lemma DrawCount(taken: nat, count: nat)
    ensures |Draws(taken, count)| == Binomial(count, taken)
  {
    CombinationsCount(1, count + 1, taken);
  }

  /** combinations(range(1, count + 1), taken), as integer tuples. */
  function Draws(taken: nat, count: nat): seq<seq<int>>
  {
    var cs := CombinationsFrom(1, count + 1, taken);
    seq(|cs|, i requires 0 <= i < |cs| => seq(|cs[i]|, j requires 0 <= j < |cs[i]| => cs[i][j] as int))
  }

  /** Every drawn token is between 1 and count. */
  lemma DrawPositive(taken: nat, count: nat, i: nat)
    requires i < |Draws(taken, count)|
    ensures Positive(Draws(taken, count)[i])
  {
    var cs := CombinationsFrom(1, count + 1, taken);
    CombinationsMembers(1, count + 1, taken, cs[i]);
  }
}
