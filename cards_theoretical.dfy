/** TheoreticalPlayer: starts from every permutation of the values and, for
    each pair of permutations that differ on every card, asks a probe built
    from the cycles of the pair, so that the answer can rule out at least one
    of the two. */
module TheoreticalStrategy {
  import opened Options
  import opened Combinatorics
  import opened CardRules
  import opened CardEngine
  import opened Sorting

  /** The pool `combinations` walks through: the permutations of range(t),
      each once, in the iteration order of the set they were put in. */
  ghost predicate IsPool(pool: seq<seq<nat>>, t: nat)
  {
    Distinct(pool) && forall q :: q in pool <==> IsPermutation(q, t)
  }

  /** permutation_.index(permutation[card]): the card that holds, in the
      second permutation, the value the first one gives to `card`. */
  function Next(perm: seq<nat>, perm_: seq<nat>, card: nat): (next: nat)
    requires |perm| == |perm_| && IsPermutation(perm_, |perm_|) && IsPermutation(perm, |perm|) && card < |perm|
    ensures next < |perm_| && perm_[next] == perm[card]
  {
    PermutationContainsAll(perm_, |perm_|, perm[card]);
    IndexOf(perm_, perm[card])
  }

  lemma NextInjective(perm: seq<nat>, perm_: seq<nat>, a: nat, b: nat)
    requires |perm| == |perm_| && IsPermutation(perm_, |perm_|) && IsPermutation(perm, |perm|)
    requires a < |perm| && b < |perm| && Next(perm, perm_, a) == Next(perm, perm_, b)
    ensures a == b
  {
  }

  /** A cycle of the pair: distinct cards, each followed by its Next, the
      last one leading back to the first. */
  predicate IsCycle(cycle: seq<nat>, perm: seq<nat>, perm_: seq<nat>)
    requires |perm| == |perm_| && IsPermutation(perm_, |perm_|) && IsPermutation(perm, |perm|)
  {
    cycle != [] && Below(cycle, |perm|) && Distinct(cycle)
    && (forall k {:trigger Next(perm, perm_, cycle[k])} :: 0 <= k < |cycle| - 1 ==> Next(perm, perm_, cycle[k]) == cycle[k + 1])
    && Next(perm, perm_, cycle[|cycle| - 1]) == cycle[0]
  }

  predicate Disjoint(a: seq<nat>, b: seq<nat>)
  {
    forall c :: c in a ==> c !in b
  }

  /** Card `c` is on one of the cycles. */
  ghost predicate OnSomeCycle(cycles: seq<seq<nat>>, c: nat)
  {
    exists i :: 0 <= i < |cycles| && c in cycles[i]
  }

  /** The state of compute_cycles before card k: `found` holds exactly the
      cards of the cycles, every card below k is found, a card whose Next is
      found is found itself, and the cycles are disjoint cycles of the pair,
      each starting at its smallest card, below k, in increasing order. */
  ghost predicate CyclesBefore(perm: seq<nat>, perm_: seq<nat>, cycles: seq<seq<nat>>, found: set<nat>, k: nat)
    requires |perm| == |perm_| && IsPermutation(perm_, |perm_|) && IsPermutation(perm, |perm|)
  {
    (forall c :: c in found <==> OnSomeCycle(cycles, c))
    && (forall c :: 0 <= c < k ==> c in found)
    && (forall c :: c in found ==> c < |perm|)
    && (forall x :: 0 <= x < |perm| && Next(perm, perm_, x) in found ==> x in found)
    && (forall i :: 0 <= i < |cycles| ==> cycles[i] != [] && IsCycle(cycles[i], perm, perm_))
    && (forall i :: 0 <= i < |cycles| ==> forall c :: c in cycles[i] ==> cycles[i][0] <= c)
    && (forall i :: 0 <= i < |cycles| ==> cycles[i][0] < k)
    && (forall i, j :: 0 <= i < j < |cycles| ==> Disjoint(cycles[i], cycles[j]) && cycles[i][0] < cycles[j][0])
  }

  /** compute_cycles: cycles that together hold every card exactly once,
      each starting at its smallest card, in increasing order of start. */
  method ComputeCycles(perm: seq<nat>, perm_: seq<nat>) returns (cycles: seq<seq<nat>>)
    requires |perm| == |perm_| && IsPermutation(perm_, |perm_|) && IsPermutation(perm, |perm|)
    ensures forall i :: 0 <= i < |cycles| ==> cycles[i] != [] && IsCycle(cycles[i], perm, perm_)
    ensures forall i :: 0 <= i < |cycles| ==> forall c :: c in cycles[i] ==> cycles[i][0] <= c
    ensures forall i, j :: 0 <= i < j < |cycles| ==> Disjoint(cycles[i], cycles[j]) && cycles[i][0] < cycles[j][0]
    ensures forall c :: 0 <= c < |perm| ==> OnSomeCycle(cycles, c)
  {
    var found: set<nat> := {};
    cycles := [];
    for card0 := 0 to |perm|
      invariant CyclesBefore(perm, perm_, cycles, found, card0)
    {
      if card0 in found {
        CyclesBeforeSkip(perm, perm_, cycles, found, card0);
        continue;
      }
      var cycle := TraceCycle(perm, perm_, card0, found);
      CycleAdded(perm, perm_, cycles, found, card0, cycle);
      cycles := cycles + [cycle];
      found := found + Elements(cycle);
    }
  }

  /** A card already found starts no cycle. */
  lemma CyclesBeforeSkip(perm: seq<nat>, perm_: seq<nat>, cycles: seq<seq<nat>>, found: set<nat>, k: nat)
    requires |perm| == |perm_| && IsPermutation(perm_, |perm_|) && IsPermutation(perm, |perm|)
    requires CyclesBefore(perm, perm_, cycles, found, k) && k in found
    ensures CyclesBefore(perm, perm_, cycles, found, k + 1)
  {
    CyclesBeforeIntro(perm, perm_, cycles, found, k + 1);
  }

  lemma CycleAdded(perm: seq<nat>, perm_: seq<nat>, cycles: seq<seq<nat>>, found: set<nat>, k: nat, cycle: seq<nat>)
    requires |perm| == |perm_| && IsPermutation(perm_, |perm_|) && IsPermutation(perm, |perm|)
    requires CyclesBefore(perm, perm_, cycles, found, k) && k < |perm| && k !in found
    requires IsCycle(cycle, perm, perm_) && cycle[0] == k
    requires forall c :: c in cycle ==> c !in found && k <= c
    ensures CyclesBefore(perm, perm_, cycles + [cycle], found + Elements(cycle), k + 1)
  {
    FoundAdded(cycles, found, cycle);
    ClosedAdded(perm, perm_, found, cycle);
    ShapeAdded(perm, perm_, cycles, found, k, cycle);
    BoundsAdded(perm, perm_, found, k, cycle);
    CyclesBeforeIntro(perm, perm_, cycles + [cycle], found + Elements(cycle), k + 1);
  }

  lemma CyclesBeforeIntro(perm: seq<nat>, perm_: seq<nat>, cycles: seq<seq<nat>>, found: set<nat>, k: nat)
    requires |perm| == |perm_| && IsPermutation(perm_, |perm_|) && IsPermutation(perm, |perm|)
    requires forall c :: c in found <==> OnSomeCycle(cycles, c)
    requires forall c :: 0 <= c < k ==> c in found
    requires forall c :: c in found ==> c < |perm|
    requires forall x :: 0 <= x < |perm| && Next(perm, perm_, x) in found ==> x in found
    requires forall i :: 0 <= i < |cycles| ==> cycles[i] != [] && IsCycle(cycles[i], perm, perm_)
    requires forall i :: 0 <= i < |cycles| ==> forall c :: c in cycles[i] ==> cycles[i][0] <= c
    requires forall i :: 0 <= i < |cycles| ==> cycles[i][0] < k
    requires forall i, j :: 0 <= i < j < |cycles| ==> Disjoint(cycles[i], cycles[j]) && cycles[i][0] < cycles[j][0]
    ensures CyclesBefore(perm, perm_, cycles, found, k)
  {
  }

  /** The cards of the new cycle, which starts at k, are all below t. */
  lemma BoundsAdded(perm: seq<nat>, perm_: seq<nat>, found: set<nat>, k: nat, cycle: seq<nat>)
    requires |perm| == |perm_| && IsPermutation(perm_, |perm_|) && IsPermutation(perm, |perm|)
    requires forall c :: 0 <= c < k ==> c in found
    requires forall c :: c in found ==> c < |perm|
    requires IsCycle(cycle, perm, perm_) && cycle[0] == k
    ensures forall c :: 0 <= c < k + 1 ==> c in found + Elements(cycle)
    ensures forall c :: c in found + Elements(cycle) ==> c < |perm|
  {
    ElementsMembers(cycle);
    assert cycle[0] in cycle;
    forall c | c in found + Elements(cycle) ensures c < |perm| {
      if c !in found {
        var m :| 0 <= m < |cycle| && cycle[m] == c;
      }
    }
  }

  lemma FoundAdded(cycles: seq<seq<nat>>, found: set<nat>, cycle: seq<nat>)
    requires forall c :: c in found <==> OnSomeCycle(cycles, c)
    ensures forall c :: c in found + Elements(cycle) <==> OnSomeCycle(cycles + [cycle], c)
  {
    ElementsMembers(cycle);
    var cs := cycles + [cycle];
    forall c ensures c in found + Elements(cycle) <==> OnSomeCycle(cs, c) {
      if c in found {
        var i :| 0 <= i < |cycles| && c in cycles[i];
        assert cs[i] == cycles[i];
      } else if c in cycle {
        assert c in cs[|cycles|];
      }
      if OnSomeCycle(cs, c) {
        var i :| 0 <= i < |cs| && c in cs[i];
        if i < |cycles| {
          assert cs[i] == cycles[i];
          assert OnSomeCycle(cycles, c);
        }
      }
    }
  }

  lemma ClosedAdded(perm: seq<nat>, perm_: seq<nat>, found: set<nat>, cycle: seq<nat>)
    requires |perm| == |perm_| && IsPermutation(perm_, |perm_|) && IsPermutation(perm, |perm|)
    requires forall x :: 0 <= x < |perm| && Next(perm, perm_, x) in found ==> x in found
    requires IsCycle(cycle, perm, perm_)
    ensures forall x :: 0 <= x < |perm| && Next(perm, perm_, x) in found + Elements(cycle) ==> x in found + Elements(cycle)
  {
    ElementsMembers(cycle);
    forall x | 0 <= x < |perm| && Next(perm, perm_, x) in found + Elements(cycle) ensures x in found + Elements(cycle) {
      var n := Next(perm, perm_, x);
      if n !in found {
        var m :| 0 <= m < |cycle| && cycle[m] == n;
        if m == 0 {
          NextInjective(perm, perm_, x, cycle[|cycle| - 1]);
        } else {
          NextInjective(perm, perm_, x, cycle[m - 1]);
        }
      }
    }
  }

  lemma ShapeAdded(perm: seq<nat>, perm_: seq<nat>, cycles: seq<seq<nat>>, found: set<nat>, k: nat, cycle: seq<nat>)
    requires |perm| == |perm_| && IsPermutation(perm_, |perm_|) && IsPermutation(perm, |perm|)
    requires CyclesBefore(perm, perm_, cycles, found, k)
    requires IsCycle(cycle, perm, perm_) && cycle[0] == k
    requires forall c :: c in cycle ==> c !in found && k <= c
    ensures forall i :: 0 <= i < |cycles + [cycle]| ==> (cycles + [cycle])[i] != [] && IsCycle((cycles + [cycle])[i], perm, perm_)
    ensures forall i :: 0 <= i < |cycles + [cycle]| ==> forall c :: c in (cycles + [cycle])[i] ==> (cycles + [cycle])[i][0] <= c
    ensures forall i :: 0 <= i < |cycles + [cycle]| ==> (cycles + [cycle])[i][0] < k + 1
    ensures forall i, j :: 0 <= i < j < |cycles + [cycle]| ==>
      Disjoint((cycles + [cycle])[i], (cycles + [cycle])[j]) && (cycles + [cycle])[i][0] < (cycles + [cycle])[j][0]
  {
    var cs := cycles + [cycle];
    assert forall i :: 0 <= i < |cycles| ==> cs[i] == cycles[i];
    assert cs[|cycles|] == cycle;
    forall i, j | 0 <= i < j < |cs| ensures Disjoint(cs[i], cs[j]) && cs[i][0] < cs[j][0] {
      if j == |cycles| {
        forall c | c in cs[i] ensures c !in cycle {
          assert OnSomeCycle(cycles, c);
        }
      }
    }
  }

  /** The inner while loop: follow Next from a card not found yet until it
      comes back to that card. */
  method TraceCycle(perm: seq<nat>, perm_: seq<nat>, card0: nat, found: set<nat>) returns (cycle: seq<nat>)
    requires |perm| == |perm_| && IsPermutation(perm_, |perm_|) && IsPermutation(perm, |perm|)
    requires card0 < |perm| && card0 !in found
    requires forall c :: 0 <= c < card0 ==> c in found
    requires forall x :: 0 <= x < |perm| && Next(perm, perm_, x) in found ==> x in found
    ensures IsCycle(cycle, perm, perm_) && cycle[0] == card0
    ensures forall c :: c in cycle ==> c !in found && card0 <= c
  {
    var t := |perm|;
    cycle := [];
    var card := card0;
    while !(|cycle| > 0 && card == cycle[0])
      invariant card < t && card !in found
      invariant Distinct(cycle) && Below(cycle, t)
      invariant |cycle| == 0 ==> card == card0
      invariant |cycle| > 0 ==> cycle[0] == card0 && card == Next(perm, perm_, cycle[|cycle| - 1])
      invariant forall k {:trigger Next(perm, perm_, cycle[k])} :: 0 <= k < |cycle| - 1 ==> Next(perm, perm_, cycle[k]) == cycle[k + 1]
      invariant forall c :: c in cycle ==> c !in found && card0 <= c
      invariant card in cycle ==> card == cycle[0]
      invariant |cycle| <= t
      decreases t - |cycle|
    {
      assert card !in cycle;
      cycle := cycle + [card];
      DistinctBelowBound(cycle, t);
      card := Next(perm, perm_, card);
      if card in cycle {
        var m :| 0 <= m < |cycle| && cycle[m] == card;
        if m > 0 {
          NextInjective(perm, perm_, cycle[m - 1], cycle[|cycle| - 1]);
        }
      }
    }
  }

  /** cycle[:-1:2]: the cards at even positions, the last position excluded. */
  function Alternate(cycle: seq<nat>): (r: seq<nat>)
    ensures |r| == |cycle| / 2 && forall k :: 0 <= k < |r| ==> r[k] == cycle[2 * k]
  {
    seq(|cycle| / 2, k requires 0 <= k < |cycle| / 2 => cycle[2 * k])
  }

  /** The concatenation of the alternate cards of every cycle. */
  function Alternates(cycles: seq<seq<nat>>): seq<nat>
  {
    if cycles == [] then [] else Alternates(cycles[..|cycles| - 1]) + Alternate(cycles[|cycles| - 1])
  }

  lemma {:induction false} AlternatesMembers(cycles: seq<seq<nat>>, c: nat)
    ensures c in Alternates(cycles) <==>
      exists i, k :: 0 <= i < |cycles| && 0 <= k && 2 * k + 1 < |cycles[i]| && cycles[i][2 * k] == c
  {
    if cycles != [] {
      var n := |cycles| - 1;
      AlternatesMembers(cycles[..n], c);
      var last := Alternate(cycles[n]);
      if c in last {
        var k :| 0 <= k < |last| && last[k] == c;
        assert 2 * k + 1 < |cycles[n]| && cycles[n][2 * k] == c;
      }
      if exists k :: 0 <= k && 2 * k + 1 < |cycles[n]| && cycles[n][2 * k] == c {
        var k :| 0 <= k && 2 * k + 1 < |cycles[n]| && cycles[n][2 * k] == c;
        assert last[k] == c;
      }
      assert forall i :: 0 <= i < n ==> cycles[..n][i] == cycles[i];
    }
  }

  lemma {:induction false} AlternatesDistinct(cycles: seq<seq<nat>>)
    requires forall i :: 0 <= i < |cycles| ==> Distinct(cycles[i])
    requires forall i, j :: 0 <= i < j < |cycles| ==> Disjoint(cycles[i], cycles[j])
    ensures Distinct(Alternates(cycles))
  {
    if cycles != [] {
      var n := |cycles| - 1;
      var front := Alternates(cycles[..n]);
      var last := Alternate(cycles[n]);
      AlternatesDistinct(cycles[..n]);
      forall c | c in front ensures c !in last {
        AlternatesMembers(cycles[..n], c);
        var i, k :| 0 <= i < n && 0 <= k && 2 * k + 1 < |cycles[..n][i]| && cycles[..n][i][2 * k] == c;
        assert c in cycles[i] && Disjoint(cycles[i], cycles[n]);
      }
      var all := front + last;
      forall a, b | 0 <= a < b < |all| ensures all[a] != all[b] {
        if b < |front| {
        } else if a >= |front| {
          assert all[a] == cycles[n][2 * (a - |front|)] && all[b] == cycles[n][2 * (b - |front|)];
        } else {
          assert all[a] in front && all[b] in last;
        }
      }
    }
  }

  /** Where an alternate card sits: at an even position of a cycle, not the last one. */
  lemma AlternateAt(cycles: seq<seq<nat>>, c: nat) returns (i: nat, k: nat)
    requires c in Alternates(cycles)
    ensures i < |cycles| && 2 * k + 1 < |cycles[i]| && cycles[i][2 * k] == c
  {
    AlternatesMembers(cycles, c);
    i, k :| 0 <= i < |cycles| && 0 <= k && 2 * k + 1 < |cycles[i]| && cycles[i][2 * k] == c;
  }

  /** A card at an odd position of a cycle is at no even position of any
      cycle, the cycles being disjoint and each without repetition. */
  lemma OddIsNotEven(cycles: seq<seq<nat>>, i: nat, k: nat, j: nat, m: nat)
    requires forall i :: 0 <= i < |cycles| ==> Distinct(cycles[i])
    requires forall i, j :: 0 <= i < j < |cycles| ==> Disjoint(cycles[i], cycles[j])
    requires i < |cycles| && 2 * k + 1 < |cycles[i]| && j < |cycles| && 2 * m + 1 < |cycles[j]|
    ensures cycles[i][2 * k + 1] != cycles[j][2 * m]
  {
    assert cycles[i][2 * k + 1] in cycles[i] && cycles[j][2 * m] in cycles[j];
    if i < j {
      assert Disjoint(cycles[i], cycles[j]);
    } else if j < i {
      assert Disjoint(cycles[j], cycles[i]);
    }
  }

  /** On the alternate cards no value of the first permutation is a value
      of the second: an alternate card's value sits, in the second
      permutation, on the next card of its cycle, which is never alternate. */
  lemma AlternatesSeparate(perm: seq<nat>, perm_: seq<nat>, cycles: seq<seq<nat>>, c: nat, d: nat)
    requires |perm| == |perm_| && IsPermutation(perm_, |perm_|) && IsPermutation(perm, |perm|)
    requires forall i :: 0 <= i < |cycles| ==> IsCycle(cycles[i], perm, perm_)
    requires forall i, j :: 0 <= i < j < |cycles| ==> Disjoint(cycles[i], cycles[j])
    requires c in Alternates(cycles) && d in Alternates(cycles) && c < |perm| && d < |perm|
    ensures perm[c] != perm_[d]
  {
    var i, k := AlternateAt(cycles, c);
    var j, m := AlternateAt(cycles, d);
    assert IsCycle(cycles[i], perm, perm_);
    var n := Next(perm, perm_, cycles[i][2 * k]);
    assert n == cycles[i][2 * k + 1];
    OddIsNotEven(cycles, i, k, j, m);
    assert n != d && n < |perm_|;
    assert perm_[n] != perm_[d];
  }

  /** All the cards of the cycles, one cycle after the other. */
  function Concat(cycles: seq<seq<nat>>): seq<nat>
  {
    if cycles == [] then [] else Concat(cycles[..|cycles| - 1]) + cycles[|cycles| - 1]
  }

  lemma {:induction false} ConcatMembers(cycles: seq<seq<nat>>)
    ensures forall c :: c in Concat(cycles) <==> OnSomeCycle(cycles, c)
  {
    if cycles != [] {
      var n := |cycles| - 1;
      ConcatMembers(cycles[..n]);
      forall c ensures c in Concat(cycles) <==> OnSomeCycle(cycles, c) {
        if OnSomeCycle(cycles[..n], c) {
          var i :| 0 <= i < n && c in cycles[..n][i];
          assert c in cycles[i];
        }
        if OnSomeCycle(cycles, c) {
          var i :| 0 <= i < |cycles| && c in cycles[i];
          if i < n {
            assert c in cycles[..n][i];
          }
        }
      }
    }
  }

  lemma {:induction false} ConcatDistinct(cycles: seq<seq<nat>>)
    requires forall i :: 0 <= i < |cycles| ==> Distinct(cycles[i])
    requires forall i, j :: 0 <= i < j < |cycles| ==> Disjoint(cycles[i], cycles[j])
    ensures Distinct(Concat(cycles))
  {
    if cycles != [] {
      var n := |cycles| - 1;
      var front := Concat(cycles[..n]);
      var last := cycles[n];
      ConcatDistinct(cycles[..n]);
      ConcatMembers(cycles[..n]);
      forall c | c in front ensures c !in last {
        var i :| 0 <= i < n && c in cycles[..n][i];
        assert c in cycles[i] && Disjoint(cycles[i], cycles[n]);
      }
      var all := front + last;
      forall a, b | 0 <= a < b < |all| ensures all[a] != all[b] {
        if b < |front| {
        } else if a >= |front| {
          assert all[a] == last[a - |front|] && all[b] == last[b - |front|];
        } else {
          assert all[a] in front && all[b] in last;
        }
      }
    }
  }

  /** Disjoint cycles without repetition that hold every card below t, and
      nothing else, hold t cards between them. */
  lemma PartitionSize(cycles: seq<seq<nat>>, t: nat)
    requires forall i :: 0 <= i < |cycles| ==> Distinct(cycles[i]) && Below(cycles[i], t)
    requires forall i, j :: 0 <= i < j < |cycles| ==> Disjoint(cycles[i], cycles[j])
    requires forall c :: 0 <= c < t ==> OnSomeCycle(cycles, c)
    ensures |Concat(cycles)| == t
  {
    var all := Concat(cycles);
    ConcatMembers(cycles);
    ConcatDistinct(cycles);
    forall k | 0 <= k < |all| ensures all[k] < t {
      assert OnSomeCycle(cycles, all[k]);
      var i :| 0 <= i < |cycles| && all[k] in cycles[i];
    }
    DistinctBelowBound(all, t);
    CoverSize(all, t);
  }

  /** With cycles of two cards or more, at least a third of the cards are
      alternate cards. */
  lemma {:induction false} AlternatesThird(cycles: seq<seq<nat>>)
    requires forall i :: 0 <= i < |cycles| ==> |cycles[i]| >= 2
    ensures 3 * |Alternates(cycles)| >= |Concat(cycles)|
  {
    if cycles != [] {
      AlternatesThird(cycles[..|cycles| - 1]);
    }
  }

  /** A pair that differs on every card has no cycle of one card. */
  lemma NoFixedCard(perm: seq<nat>, perm_: seq<nat>, cycle: seq<nat>)
    requires |perm| == |perm_| && IsPermutation(perm_, |perm_|) && IsPermutation(perm, |perm|)
    requires forall k :: 0 <= k < |perm| ==> perm[k] != perm_[k]
    requires IsCycle(cycle, perm, perm_)
    ensures |cycle| >= 2
  {
    var c := cycle[0];
    var n := Next(perm, perm_, c);
    assert perm_[n] == perm[c] != perm_[c];
  }

  /** When t >= 3p the alternate cards are at least p: the probe of a pair
      that differs on every card is made of alternate cards only. */
  lemma EnoughAlternates(perm: seq<nat>, perm_: seq<nat>, cycles: seq<seq<nat>>, p: nat)
    requires |perm| == |perm_| && IsPermutation(perm_, |perm_|) && IsPermutation(perm, |perm|)
    requires forall k :: 0 <= k < |perm| ==> perm[k] != perm_[k]
    requires forall i :: 0 <= i < |cycles| ==> cycles[i] != [] && IsCycle(cycles[i], perm, perm_)
    requires forall i, j :: 0 <= i < j < |cycles| ==> Disjoint(cycles[i], cycles[j])
    requires forall c :: 0 <= c < |perm| ==> OnSomeCycle(cycles, c)
    requires 3 * p <= |perm|
    ensures |Alternates(cycles)| >= p
  {
    forall i | 0 <= i < |cycles| ensures |cycles[i]| >= 2 {
      NoFixedCard(perm, perm_, cycles[i]);
    }
    PartitionSize(cycles, |perm|);
    AlternatesThird(cycles);
  }

  lemma {:induction false} DistinctCounts(s: seq<int>)
    ensures Distinct(s) <==> forall x :: multiset(s)[x] <= 1
  {
    if s != [] {
      var q := s[..|s| - 1];
      var y := s[|s| - 1];
      assert s == q + [y];
      DistinctCounts(q);
      assert multiset(s) == multiset(q) + multiset{y};
      assert y in q <==> multiset(q)[y] >= 1;
      if Distinct(s) {
        assert Distinct(q);
        assert y !in q;
      }
      if forall x :: multiset(s)[x] <= 1 {
        assert forall x :: multiset(q)[x] <= multiset(s)[x];
        assert y !in q;
      }
    }
  }

  /** Every card below t among distinct cards means at least t of them. */
  lemma CoverSize(cards: seq<nat>, t: nat)
    requires Distinct(cards) && forall c :: 0 <= c < t ==> c in cards
    ensures |cards| >= t
  {
    ElementsSize(cards);
    RangeSize(t);
    forall c | c in Range(t) ensures c in Elements(cards) {
      assert c in cards;
      var i :| 0 <= i < |cards| && cards[i] == c;
    }
    SubsetSize(Range(t), Elements(cards));
  }

  /** Lines 255-257: cards += cycle[:-1:2] for every cycle. */
  method GatherAlternates(cycles: seq<seq<nat>>) returns (cards: seq<nat>)
    ensures cards == Alternates(cycles)
  {
    cards := [];
    for i := 0 to |cycles|
      invariant cards == Alternates(cycles[..i])
    {
      assert cycles[..i + 1][..i] == cycles[..i];
      cards := cards + Alternate(cycles[i]);
    }
    assert cycles[..|cycles|] == cycles;
  }

  /** Lines 258-263: append the smallest cards not there yet until there
      are p of them. The result keeps the given cards in front, has at
      least p cards (exactly p when fewer were given), and every card added
      is smaller than every card left out. */
  method PadCards(given: seq<nat>, t: nat, p: nat) returns (cards: seq<nat>)
    requires Distinct(given) && Below(given, t) && p <= t
    ensures Distinct(cards) && Below(cards, t) && |cards| >= p
    ensures |cards| >= |given| && cards[..|given|] == given
    ensures |given| >= p ==> cards == given
    ensures |given| < p ==> |cards| == p
    ensures forall c, j :: c in cards[|given|..] && 0 <= j < t && j !in cards ==> c < j
  {
    cards := given;
    for i := 0 to t
      invariant Distinct(cards) && Below(cards, t)
      invariant |cards| >= |given| && cards[..|given|] == given
      invariant |given| >= p ==> cards == given
      invariant |cards| <= p || cards == given
      invariant forall j :: 0 <= j < i ==> j in cards
      invariant forall c :: c in cards[|given|..] ==> c < i
    {
      if |cards| >= p {
        return;
      }
      if i in cards {
        continue;
      }
      assert (cards + [i])[|given|..] == cards[|given|..] + [i];
      cards := cards + [i];
    }
    CoverSize(cards, t);
  }

  /** sorted() of distinct cards below t is strictly increasing. */
  lemma SortDistinct(cards: seq<nat>, t: nat)
    requires Distinct(cards) && Below(cards, t)
    ensures forall k :: 0 <= k < |Sort(cards)| ==> 0 <= Sort(cards)[k] < t
    ensures forall a, b :: 0 <= a < b < |Sort(cards)| ==> Sort(cards)[a] < Sort(cards)[b]
  {
    var sorted := Sort(cards);
    DistinctCounts(cards);
    assert multiset(sorted) == multiset(cards);
    DistinctCounts(sorted);
    assert Distinct(sorted);
    forall a, b | 0 <= a < b < |sorted| ensures sorted[a] < sorted[b] {
      assert sorted[a] <= sorted[b] && sorted[a] != sorted[b];
    }
    forall k | 0 <= k < |sorted| ensures 0 <= sorted[k] < t {
      assert sorted[k] in cards;
    }
  }

  /** Lines 255-266: the alternate cards of the cycles, padded with the
      smallest other cards up to p of them, sorted, and cut to p. The probe
      is always p distinct sorted cards; when the cycles give p alternate
      cards or more, the probe is made of them only, and otherwise it holds
      them all. */
  method ProbeCards(cycles: seq<seq<nat>>, t: nat, p: nat) returns (probe: seq<nat>)
    requires p <= t
    requires forall i :: 0 <= i < |cycles| ==> Distinct(cycles[i]) && Below(cycles[i], t)
    requires forall i, j :: 0 <= i < j < |cycles| ==> Disjoint(cycles[i], cycles[j])
    ensures IsCombination(probe, 0, t, p)
    ensures |Alternates(cycles)| >= p ==> forall c :: c in probe ==> c in Alternates(cycles)
    ensures |Alternates(cycles)| < p ==> forall c :: c in Alternates(cycles) ==> c in probe
  {
    var alternates := GatherAlternates(cycles);
    AlternatesDistinct(cycles);
    forall k | 0 <= k < |alternates| ensures alternates[k] < t {
      var i, m := AlternateAt(cycles, alternates[k]);
    }
    var cards := PadCards(alternates, t, p);
    var sorted := Sort(cards);
    SortDistinct(cards, t);
    var all: seq<nat> := sorted;
    probe := all[..p];
    if |alternates| < p {
      forall c | c in alternates ensures c in probe {
        assert c in cards[..|alternates|];
        assert probe == all;
      }
    }
  }

  /** get_known_card on the set of permutations still possible: the first
      card whose value is the same in all of them, with that value. */
  function KnownCard(valid: Option<set<seq<nat>>>, t: nat): (r: Option<(nat, nat)>)
    requires valid.Some? ==> forall q :: q in valid.value ==> |q| == t
    ensures valid.None? || valid.value == {} ==> r.None?
    ensures r.Some? ==> r.value.0 < t && forall q :: q in valid.value ==> q[r.value.0] == r.value.1
    ensures r.Some? ==> forall c :: 0 <= c < r.value.0 ==> Splits(valid.value, c)
    ensures r.None? && valid.Some? && valid.value != {} ==> forall c :: 0 <= c < t ==> Splits(valid.value, c)
  {
    if valid.None? || valid.value == {} then None else KnownCardFrom(valid.value, t, 0)
  }

  /** Two of the permutations give `card` different values. */
  ghost predicate Splits(perms: set<seq<nat>>, card: nat)
  {
    exists q1, q2 :: q1 in perms && q2 in perms && card < |q1| && card < |q2| && q1[card] != q2[card]
  }

  function KnownCardFrom(perms: set<seq<nat>>, t: nat, card: nat): (r: Option<(nat, nat)>)
    requires perms != {} && forall q :: q in perms ==> |q| == t
    ensures r.Some? ==> card <= r.value.0 < t && forall q :: q in perms ==> q[r.value.0] == r.value.1
    ensures r.Some? ==> forall c :: card <= c < r.value.0 ==> Splits(perms, c)
    ensures r.None? ==> forall c :: card <= c < t ==> Splits(perms, c)
    decreases t - card
  {
    if card >= t then None
    else
      var values := set q | q in perms :: q[card];
      if |values| == 1 then
        var v := Pop(values);
        assert forall q :: q in perms ==> q[card] in values;
        Some((card, v))
      else
        ValuesSplit(perms, t, card, values);
        KnownCardFrom(perms, t, card + 1)
  }

  lemma ValuesSplit(perms: set<seq<nat>>, t: nat, card: nat, values: set<nat>)
    requires perms != {} && card < t && forall q :: q in perms ==> |q| == t
    requires values == set q | q in perms :: q[card]
    requires |values| != 1
    ensures Splits(perms, card)
  {
    var q1 := PickSeq(perms);
    var a := q1[card];
    assert a in values;
    assert |values - {a}| != 0;
    var b := PickNat(values - {a});
    var q2 :| q2 in perms && q2[card] == b;
  }

  class TheoreticalPlayer {
    const nbCards: nat
    const p: nat
    var clues: seq<Clue>
    var validPermutations: Option<set<seq<nat>>>
    /** Every answer received, in order. */
    ghost var history: seq<Clue>

    ghost predicate Valid()
      reads this
    {
      1 <= p <= nbCards && IsDict(clues)
      && (forall e :: e in clues ==> e in history)
      && ProbesOf(history, nbCards, p)
    }

    /** The engine's permutations all agree with every answer it gave. */
    ghost predicate EngineAgrees(engine: Engine)
      reads this, engine
    {
      engine.nbCards == nbCards && engine.Valid()
      && forall q :: q in engine.permutations ==> Consistent(q, history)
    }

    /** The kept set holds permutations only, and every permutation that
        agrees with every answer is still in it. */
    ghost predicate Complete()
      reads this
    {
      validPermutations.Some?
      && (forall q :: q in validPermutations.value ==> IsPermutation(q, nbCards))
      && forall q :: IsPermutation(q, nbCards) && Consistent(q, history) ==> q in validPermutations.value
    }

    constructor (nbCards: nat, p: nat)
      requires 1 <= p <= nbCards
      ensures this.nbCards == nbCards && this.p == p && Valid()
      ensures clues == [] && validPermutations == None && history == []
    {
      this.nbCards := nbCards;
      this.p := p;
      clues := [];
      validPermutations := None;
      history := [];
    }

    /** add_clue. */
    method AddClue(cards: seq<nat>, value: nat)
      requires IsDict(clues)
      modifies this
      ensures clues == Put(old(clues), cards, value) && history == old(history) + [Clue(cards, value)]
      ensures validPermutations == old(validPermutations)
    {
      clues := Put(clues, cards, value);
      history := history + [Clue(cards, value)];
    }

    /** One turn of the game loop: the engine answers the yielded probe and
        the player records the answer. */
    method Turn(engine: Engine, cards: seq<nat>)
      requires Valid() && EngineAgrees(engine) && IsCombination(cards, 0, nbCards, p)
      modifies this, engine
      ensures Valid() && EngineAgrees(engine)
      ensures validPermutations == old(validPermutations)
      ensures Lookup(clues, cards).Some?
      ensures SharesOnAllProbes(old(engine.permutations), nbCards, p) ==> engine.permutations == old(engine.permutations)
      ensures old(Complete()) ==> Complete()
    {
      assert cards != [] by { assert |cards| == p; }
      ghost var log := history;
      var value := engine.GetValue(cards);
      AddClue(cards, value);
      Recorded(old(clues), log, Clue(cards, value), nbCards, p);
      forall q | q in engine.permutations ensures Consistent(q, history) {
        assert q in old(engine.permutations);
        ConsistentAppend(q, log, Clue(cards, value));
      }
      forall q | Consistent(q, history) ensures Consistent(q, log) {
        ConsistentAppend(q, log, Clue(cards, value));
      }
    }

    /** The body of the loop over pairs, lines 248-275: a pair that agrees
        on some card is skipped; otherwise its probe is asked unless already
        answered, and each of the two that shows no card with the answer is
        discarded. When the cycles give at least p alternate cards, at least
        one of the two is gone afterwards. */
    method PairStep(engine: Engine, perm: seq<nat>, perm_: seq<nat>)
      requires Valid() && EngineAgrees(engine) && Complete()
      requires IsPermutation(perm, nbCards) && IsPermutation(perm_, nbCards)
      modifies this, engine
      ensures Valid() && EngineAgrees(engine) && Complete()
      ensures validPermutations.value <= old(validPermutations.value)
      ensures (exists k :: 0 <= k < nbCards && perm[k] == perm_[k]) ==>
        clues == old(clues) && validPermutations == old(validPermutations) && engine.permutations == old(engine.permutations)
      ensures SharesOnAllProbes(old(engine.permutations), nbCards, p) ==> engine.permutations == old(engine.permutations)
      ensures 3 * p <= nbCards && (forall k :: 0 <= k < nbCards ==> perm[k] != perm_[k]) ==>
        perm !in validPermutations.value || perm_ !in validPermutations.value
    {
      if exists k :: 0 <= k < nbCards && perm[k] == perm_[k] {
        return;
      }
      var cycles := ComputeCycles(perm, perm_);
      var cards := ProbeCards(cycles, nbCards, p);
      if Lookup(clues, cards).None? {
        Turn(engine, cards);
      }
      var value := Lookup(clues, cards).value;
      DiscardPair(perm, perm_, cards, value);
      if 3 * p <= nbCards {
        EnoughAlternates(perm, perm_, cycles, p);
        SeparatedPair(perm, perm_, cycles, cards, value);
      }
    }

    /** Lines 269-272: each of the pair that shows the answer on no probed
        card is discarded, and nothing else is. */
    method DiscardPair(perm: seq<nat>, perm_: seq<nat>, cards: seq<nat>, value: nat)
      requires Valid() && Complete() && Lookup(clues, cards) == Some(value)
      requires IsPermutation(perm, nbCards) && IsPermutation(perm_, nbCards) && IsCombination(cards, 0, nbCards, p)
      modifies this
      ensures Valid() && Complete() && clues == old(clues) && history == old(history)
      ensures validPermutations.value ==
        old(validPermutations.value)
        - (if Shows(perm, cards, value) then {} else {perm})
        - (if Shows(perm_, cards, value) then {} else {perm_})
    {
      assert Clue(cards, value) in history;
      NoCardShows(perm, cards, value);
      NoCardShows(perm_, cards, value);
      var valid := validPermutations.value;
      if forall c :: c in cards ==> perm[c] != value {
        DiscardInconsistent(perm, cards, value);
        valid := valid - {perm};
      }
      if forall c :: c in cards ==> perm_[c] != value {
        DiscardInconsistent(perm_, cards, value);
        valid := valid - {perm_};
      }
      ghost var kept := validPermutations.value;
      validPermutations := Some(valid);
      assert Complete() by {
        forall q | IsPermutation(q, nbCards) && Consistent(q, history) ensures q in valid {
          assert q in kept;
        }
      }
    }

    /** A permutation that shows no probed card of the answered value
        disagrees with the answers received. */
    lemma DiscardInconsistent(q: seq<nat>, cards: seq<nat>, value: nat)
      requires Clue(cards, value) in history && !Shows(q, cards, value)
      ensures !Consistent(q, history)
    {
      var m :| 0 <= m < |history| && history[m] == Clue(cards, value);
    }

    /** The pair agrees on some card, or one of the two has been discarded. */
    ghost predicate Settled(q1: seq<nat>, q2: seq<nat>)
      reads this
      requires validPermutations.Some?
    {
      (exists k :: 0 <= k < |q1| && k < |q2| && q1[k] == q2[k])
      || q1 !in validPermutations.value || q2 !in validPermutations.value
    }

    /** find_card, each yield answered by the engine before it resumes.
        `pool` is the order in which the set of all permutations is walked.
        When t >= 3p, any two permutations still possible afterwards agree
        on some card. */
    method FindCard(engine: Engine, pool: seq<seq<nat>>)
      requires Valid() && EngineAgrees(engine) && clues == [] && history == [] && IsPool(pool, nbCards)
      modifies this, engine
      ensures Valid() && EngineAgrees(engine) && Complete()
      ensures SharesOnAllProbes(old(engine.permutations), nbCards, p) ==> engine.permutations == old(engine.permutations)
      ensures 3 * p <= nbCards ==> forall q1, q2 :: q1 in validPermutations.value && q2 in validPermutations.value && q1 != q2 ==>
        exists k :: 0 <= k < nbCards && q1[k] == q2[k]
    {
      validPermutations := Some(set q | q in pool);
      for a := 0 to |pool|
        invariant Valid() && EngineAgrees(engine) && Complete()
        invariant SharesOnAllProbes(old(engine.permutations), nbCards, p) ==> engine.permutations == old(engine.permutations)
        invariant 3 * p <= nbCards ==> forall i, j :: 0 <= i < a && i < j < |pool| ==> Settled(pool[i], pool[j])
      {
        for b := a + 1 to |pool|
          invariant Valid() && EngineAgrees(engine) && Complete()
          invariant SharesOnAllProbes(old(engine.permutations), nbCards, p) ==> engine.permutations == old(engine.permutations)
          invariant 3 * p <= nbCards ==> forall i, j :: 0 <= i < a && i < j < |pool| ==> Settled(pool[i], pool[j])
          invariant 3 * p <= nbCards ==> forall j :: a < j < b ==> Settled(pool[a], pool[j])
        {
          assert pool[a] in pool && pool[b] in pool;
          ghost var before := validPermutations.value;
          PairStep(engine, pool[a], pool[b]);
          if 3 * p <= nbCards {
            SettledStays(pool, before, a, b);
          }
        }
        if 3 * p <= nbCards {
          SettledRow(pool, a);
        }
      }
      if 3 * p <= nbCards {
        AllSettled(pool);
      }
    }

    /** Once every pair of the pool is settled, any two permutations still
        possible agree on some card. */
    lemma AllSettled(pool: seq<seq<nat>>)
      requires Valid() && Complete() && IsPool(pool, nbCards)
      requires forall i, j :: 0 <= i < |pool| && i < j < |pool| ==> Settled(pool[i], pool[j])
      ensures forall q1, q2 :: q1 in validPermutations.value && q2 in validPermutations.value && q1 != q2 ==>
        exists k :: 0 <= k < nbCards && q1[k] == q2[k]
    {
      forall q1, q2 | q1 in validPermutations.value && q2 in validPermutations.value && q1 != q2
        ensures exists k :: 0 <= k < nbCards && q1[k] == q2[k]
      {
        var i :| 0 <= i < |pool| && pool[i] == q1;
        var j :| 0 <= j < |pool| && pool[j] == q2;
        if i < j {
          assert Settled(pool[i], pool[j]);
        } else {
          assert Settled(pool[j], pool[i]);
          var k :| 0 <= k < |q2| && k < |q1| && q2[k] == q1[k];
        }
      }
    }

    /** Discarding more keeps settled pairs settled. */
    lemma SettledStays(pool: seq<seq<nat>>, before: set<seq<nat>>, a: nat, b: nat)
      requires validPermutations.Some? && validPermutations.value <= before
      requires a < b < |pool|
      requires forall i, j :: 0 <= i < a && i < j < |pool| ==>
        (exists k :: 0 <= k < |pool[i]| && k < |pool[j]| && pool[i][k] == pool[j][k]) || pool[i] !in before || pool[j] !in before
      requires forall j :: a < j < b ==>
        (exists k :: 0 <= k < |pool[a]| && k < |pool[j]| && pool[a][k] == pool[j][k]) || pool[a] !in before || pool[j] !in before
      requires |pool[a]| == nbCards && |pool[b]| == nbCards
      requires (exists k :: 0 <= k < nbCards && pool[a][k] == pool[b][k])
        || pool[a] !in validPermutations.value || pool[b] !in validPermutations.value
      ensures forall i, j :: 0 <= i < a && i < j < |pool| ==> Settled(pool[i], pool[j])
      ensures forall j :: a < j <= b ==> Settled(pool[a], pool[j])
    {
    }

    /** Row a settled joins the rows before it. */
    lemma SettledRow(pool: seq<seq<nat>>, a: nat)
      requires validPermutations.Some? && a < |pool|
      requires forall i, j :: 0 <= i < a && i < j < |pool| ==> Settled(pool[i], pool[j])
      requires forall j :: a < j < |pool| ==> Settled(pool[a], pool[j])
      ensures forall i, j :: 0 <= i < a + 1 && i < j < |pool| ==> Settled(pool[i], pool[j])
    {
    }

    /** guess_a_card: the known card if there is one, otherwise any card of
        any permutation still possible. */
    method GuessACard() returns (card: nat, value: nat, deduced: bool)
      requires Valid() && Complete() && validPermutations.value != {}
      ensures deduced <==> KnownCard(validPermutations, nbCards).Some?
      ensures deduced ==> (card, value) == KnownCard(validPermutations, nbCards).value
      ensures exists q :: q in validPermutations.value && card < |q| && q[card] == value
      ensures card < nbCards
    {
      var known := KnownCard(validPermutations, nbCards);
      var q := PickSeq(validPermutations.value);
      if known.Some? {
        card, value := known.value.0, known.value.1;
        deduced := true;
        assert q[card] == value;
        return;
      }
      deduced := false;
      var permutation :| permutation in validPermutations.value;
      if nbCards == 0 {
        assert false;
      }
      assert 0 in Range(|permutation|);
      card :| card in Range(|permutation|);
      value := permutation[card];
    }
  }

  /** With the probe inside the alternate cards, no answer is a value of
      both permutations on it. */
  lemma SeparatedPair(perm: seq<nat>, perm_: seq<nat>, cycles: seq<seq<nat>>, cards: seq<nat>, value: nat)
    requires |perm| == |perm_| && IsPermutation(perm_, |perm_|) && IsPermutation(perm, |perm|)
    requires forall i :: 0 <= i < |cycles| ==> IsCycle(cycles[i], perm, perm_)
    requires forall i, j :: 0 <= i < j < |cycles| ==> Disjoint(cycles[i], cycles[j])
    requires Below(cards, |perm|) && forall c :: c in cards ==> c in Alternates(cycles)
    ensures !(Shows(perm, cards, value) && Shows(perm_, cards, value))
  {
    if Shows(perm, cards, value) && Shows(perm_, cards, value) {
      var i :| 0 <= i < |cards| && cards[i] < |perm| && perm[cards[i]] == value;
      var j :| 0 <= j < |cards| && cards[j] < |perm_| && perm_[cards[j]] == value;
      AlternatesSeparate(perm, perm_, cycles, cards[i], cards[j]);
    }
  }

  /** main(t, p, TheoreticalPlayer), with the engine's shuffle and rotations
      and the set's iteration order as parameters. A deduced card always
      wins; with t <= 3(p - 1) the engine keeps both seeds and no guess can
      win. */
  method PlayTheoretical(t: nat, p: nat, picks: seq<bool>, order: seq<nat>, pool: seq<seq<nat>>)
    returns (card: nat, value: nat, deduced: bool, won: bool)
    requires 1 <= p <= t && IsPermutation(order, t) && EnoughPicks(t, picks) && IsPool(pool, t)
    ensures deduced ==> won
    ensures t <= 3 * (p - 1) ==> !won && !deduced
  {
    var engine := new Engine(t, picks, order);
    ghost var seeds := engine.permutations;
    var player := new TheoreticalPlayer(t, p);
    player.FindCard(engine, pool);
    ghost var survivor := engine.permutations[0];
    assert survivor in engine.permutations;
    assert survivor in player.validPermutations.value;
    card, value, deduced := player.GuessACard();
    var answer := engine.Verify(card, value);
    won := answer[card] == value;
    if deduced {
      forall q | q in engine.permutations ensures q[card] == value {
        assert q in player.validPermutations.value;
      }
    }
    if t <= 3 * (p - 1) {
      SeedsShareOnAllProbes(t, p, picks, order, seeds[1]);
      assert engine.permutations == seeds;
      PartnerInRange(t, picks, order[card]);
      assert seeds[0][card] != seeds[1][card];
    }
  }
}
