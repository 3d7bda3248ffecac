/** Vocabulary of the card game "trouver un seul numéro": t cards, each with
    a hidden value; a permutation maps card index to value. A probe is a tuple
    of cards, and the engine answers it with the value of one of them. */
module CardRules {
  import opened Options
  import opened Combinatorics

  /** The values of t cards: a permutation of range(t). */
  predicate IsPermutation(p: seq<nat>, t: nat)
  {
    |p| == t && Below(p, t) && Distinct(p)
  }

  /** `value` is the value of at least one card of the probe under `p`. */
  predicate Shows(p: seq<nat>, cards: seq<nat>, value: nat)
  {
    exists i :: 0 <= i < |cards| && cards[i] < |p| && p[cards[i]] == value
  }

  /** all(p[c] != value for c in cards) says exactly that p does not show value. */
  lemma NoCardShows(p: seq<nat>, cards: seq<nat>, value: nat)
    requires Below(cards, |p|)
    ensures (forall c :: c in cards ==> p[c] != value) <==> !Shows(p, cards, value)
  {
    if Shows(p, cards, value) {
      var i :| 0 <= i < |cards| && cards[i] < |p| && p[cards[i]] == value;
      assert cards[i] in cards;
    } else {
      forall c | c in cards ensures p[c] != value {
        var i :| 0 <= i < |cards| && cards[i] == c;
      }
    }
  }

  /** The set of values `p` puts on the probed cards. */
  function ValuesOn(p: seq<nat>, cards: seq<nat>): (vs: set<nat>)
    ensures forall v :: v in vs <==> Shows(p, cards, v)
    ensures Below(cards, |p|) && cards != [] ==> vs != {}
  {
    var vs := set i | 0 <= i < |cards| && cards[i] < |p| :: p[cards[i]];
    assert Below(cards, |p|) && cards != [] ==> p[cards[0]] in vs;
    vs
  }

  /** One entry of a clue dictionary: the probe and the value it was answered with. */
  datatype Clue = Clue(cards: seq<nat>, value: nat)

  /** The keys of a dictionary, in insertion order. */
  function Keys(clues: seq<Clue>): (ks: seq<seq<nat>>)
    ensures |ks| == |clues| && forall i :: 0 <= i < |clues| ==> ks[i] == clues[i].cards
  {
    if clues == [] then [] else Keys(clues[..|clues| - 1]) + [clues[|clues| - 1].cards]
  }

  /** A Python dict keeps each key once. */
  predicate IsDict(clues: seq<Clue>)
  {
    Distinct(Keys(clues))
  }

  /** clues.get(cards). */
  function Lookup(clues: seq<Clue>, cards: seq<nat>): (r: Option<nat>)
    ensures r.None? <==> cards !in Keys(clues)
    ensures r.Some? ==> Clue(cards, r.value) in clues
  {
    if clues == [] then None
    else if clues[|clues| - 1].cards == cards then Some(clues[|clues| - 1].value)
    else Lookup(clues[..|clues| - 1], cards)
  }


  /** clues[cards] = value: a new key goes last, an existing key keeps its
      place and takes the new value. */
  function Put(clues: seq<Clue>, cards: seq<nat>, value: nat): (r: seq<Clue>)
    requires IsDict(clues)
    ensures IsDict(r)
    ensures Lookup(r, cards) == Some(value)
    ensures forall k :: k != cards ==> Lookup(r, k) == Lookup(clues, k)
    ensures forall e :: e in r ==> e in clues || e == Clue(cards, value)
    ensures cards !in Keys(clues) ==> r == clues + [Clue(cards, value)]
    ensures cards in Keys(clues) ==> |r| == |clues| && Keys(r) == Keys(clues)
  {
    var ks := Keys(clues);
    if cards !in ks then
      var r := clues + [Clue(cards, value)];
      assert r[..|r| - 1] == clues;
      LookupAppend(clues, cards, value);
      r
    else
      var i :| 0 <= i < |ks| && ks[i] == cards;
      var r := clues[i := Clue(cards, value)];
      assert Keys(r) == ks;
      assert forall e :: e in r ==> e in clues || e == Clue(cards, value) by {
        forall e | e in r ensures e in clues || e == Clue(cards, value) {
          var j :| 0 <= j < |r| && r[j] == e;
          if j != i { assert e == clues[j]; }
        }
      }
      LookupReplace(clues, i, value);
      r
  }

  lemma LookupAppend(clues: seq<Clue>, cards: seq<nat>, value: nat)
    ensures forall k :: k != cards ==> Lookup(clues + [Clue(cards, value)], k) == Lookup(clues, k)
  {
    var r := clues + [Clue(cards, value)];
    assert r[..|r| - 1] == clues;
  }

  /** In a dictionary, the key stored at position j finds the value stored there. */
  lemma {:induction false} LookupAt(clues: seq<Clue>, j: nat)
    requires IsDict(clues) && j < |clues|
    ensures Lookup(clues, clues[j].cards) == Some(clues[j].value)
    decreases |clues|
  {
    var n := |clues| - 1;
    if j < n {
      var pre := clues[..n];
      assert Keys(clues)[j] == clues[j].cards && Keys(clues)[n] == clues[n].cards;
      assert Keys(pre) == Keys(clues)[..n];
      assert pre[j] == clues[j];
      LookupAt(pre, j);
    }
  }

  lemma LookupReplace(clues: seq<Clue>, i: nat, value: nat)
    requires IsDict(clues) && i < |clues|
    ensures Lookup(clues[i := Clue(clues[i].cards, value)], clues[i].cards) == Some(value)
    ensures forall k :: k != clues[i].cards ==>
      Lookup(clues[i := Clue(clues[i].cards, value)], k) == Lookup(clues, k)
  {
    var r := clues[i := Clue(clues[i].cards, value)];
    ReplaceKeepsKeys(clues, i, value);
    LookupAt(r, i);
    forall k | k != clues[i].cards ensures Lookup(r, k) == Lookup(clues, k) {
      LookupReplaceOther(clues, i, value, k);
    }
  }

  lemma ReplaceKeepsKeys(clues: seq<Clue>, i: nat, value: nat)
    requires i < |clues|
    ensures Keys(clues[i := Clue(clues[i].cards, value)]) == Keys(clues)
  {
  }

  /** Changing the value at position i leaves every other key's lookup alone. */
  lemma LookupReplaceOther(clues: seq<Clue>, i: nat, value: nat, k: seq<nat>)
    requires IsDict(clues) && i < |clues| && k != clues[i].cards
    ensures Lookup(clues[i := Clue(clues[i].cards, value)], k) == Lookup(clues, k)
  {
    var r := clues[i := Clue(clues[i].cards, value)];
    ReplaceKeepsKeys(clues, i, value);
    if k in Keys(clues) {
      var j :| 0 <= j < |clues| && Keys(clues)[j] == k;
      assert r[j] == clues[j];
      LookupAt(r, j);
      LookupAt(clues, j);
    }
  }

  /** Setting a key keeps every key already there. */
  lemma PutKeepsKeys(clues: seq<Clue>, cards: seq<nat>, value: nat)
    requires IsDict(clues)
    ensures forall k :: k in Keys(clues) ==> k in Keys(Put(clues, cards, value))
  {
    forall k | k in Keys(clues) ensures k in Keys(Put(clues, cards, value)) {
      if k != cards {
        assert Lookup(clues, k).Some?;
      }
    }
  }

  /** `p` agrees with every answer recorded in `clues`. */
  predicate Consistent(p: seq<nat>, clues: seq<Clue>)
  {
    forall i :: 0 <= i < |clues| ==> Shows(p, clues[i].cards, clues[i].value)
  }

  /** The first index of `v` in `p` (tuple.index). */
  function IndexOf(p: seq<nat>, v: nat): (i: nat)
    requires v in p
    ensures i < |p| && p[i] == v && v !in p[..i]
  {
    if p[0] == v then 0 else 1 + IndexOf(p[1..], v)
  }

  function Elements(p: seq<nat>): set<nat>
  {
    set i | 0 <= i < |p| :: p[i]
  }

  lemma ElementsMembers(p: seq<nat>)
    ensures forall v :: v in Elements(p) <==> v in p
  {
    forall v | v in p ensures v in Elements(p) {
      var i :| 0 <= i < |p| && p[i] == v;
    }
  }

  function Range(t: nat): (r: set<nat>)
    ensures forall v :: v in r <==> 0 <= v < t
  {
    if t == 0 then {} else Range(t - 1) + {t - 1}
  }

  lemma {:induction false} RangeSize(t: nat)
    ensures |Range(t)| == t
  {
    if t > 0 {
      RangeSize(t - 1);
    }
  }

  lemma {:induction false} ElementsSize(p: seq<nat>)
    requires Distinct(p)
    ensures |Elements(p)| == |p|
  {
    if p != [] {
      var q := p[..|p| - 1];
      ElementsSize(q);
      assert Elements(p) == Elements(q) + {p[|p| - 1]};
      assert p[|p| - 1] !in Elements(q);
    }
  }

  lemma {:induction false} SubsetSize(a: set<nat>, b: set<nat>)
    requires a <= b
    ensures |a| <= |b|
    decreases |b|
  {
    if a != {} {
      var x := PickNat(a);
      SubsetSize(a - {x}, b - {x});
    }
  }

  lemma PickNat(s: set<nat>) returns (x: nat)
    requires s != {}
    ensures x in s
  {
    if forall y :: y !in s {
      assert false;
    }
    x :| x in s;
  }

  lemma PickSeq(s: set<seq<nat>>) returns (x: seq<nat>)
    requires s != {}
    ensures x in s
  {
    if forall y :: y !in s {
      assert false;
    }
    x :| x in s;
  }

  /** values.pop() on a one-element set. */
  function Pop(values: set<nat>): (v: nat)
    requires |values| == 1
    ensures values == {v}
  {
    OneElement(values);
    var v :| v in values;
    v
  }

  lemma OneElement(values: set<nat>)
    requires |values| == 1
    ensures exists x :: values == {x}
  {
    var x := PickNat(values);
    assert |values - {x}| == 0;
    assert values == {x};
  }

  /** Pigeonhole: t distinct values below t are all the values below t. */
  lemma PermutationContainsAll(p: seq<nat>, t: nat, v: nat)
    requires IsPermutation(p, t) && v < t
    ensures v in p
  {
    if v !in p {
      ElementsSize(p);
      RangeSize(t);
      assert Elements(p) <= Range(t) - {v};
      assert |Range(t) - {v}| == t - 1;
      SubsetSize(Elements(p), Range(t) - {v});
      assert false;
    }
  }

  /** Distinct values below t are at most t of them. */
  lemma DistinctBelowBound(xs: seq<nat>, t: nat)
    requires Distinct(xs) && Below(xs, t)
    ensures |xs| <= t
  {
    ElementsSize(xs);
    RangeSize(t);
    SubsetSize(Elements(xs), Range(t));
  }

  /** One answer more in the log: a permutation agrees with the longer log
      exactly when it agrees with the shorter one and shows that answer. */
  lemma ConsistentAppend(q: seq<nat>, log: seq<Clue>, e: Clue)
    ensures Consistent(q, log + [e]) <==> Consistent(q, log) && Shows(q, e.cards, e.value)
  {
    var longer := log + [e];
    assert longer[|log|] == e;
    if Consistent(q, log) && Shows(q, e.cards, e.value) {
      forall m | 0 <= m < |longer| ensures Shows(q, longer[m].cards, longer[m].value) {
        if m < |log| {
          assert longer[m] == log[m];
        }
      }
    }
    if Consistent(q, longer) {
      forall m | 0 <= m < |log| ensures Shows(q, log[m].cards, log[m].value) {
        assert longer[m] == log[m];
      }
    }
  }

  /** Pigeonhole: more than m values below m repeat one of them. */
  lemma Pigeonhole(xs: seq<nat>, m: nat) returns (i: nat, j: nat)
    requires Below(xs, m) && |xs| > m
    ensures i < j < |xs| && xs[i] == xs[j]
  {
    if Distinct(xs) {
      ElementsSize(xs);
      RangeSize(m);
      SubsetSize(Elements(xs), Range(m));
      assert false;
    }
    i, j :| 0 <= i < j < |xs| && xs[i] == xs[j];
  }

  /** Every probe recorded in `clues` lies among the first `k` cards. */
  predicate CluesWithin(clues: seq<Clue>, k: nat)
  {
    forall i :: 0 <= i < |clues| ==> Below(clues[i].cards, k)
  }

  /** A probe among the first k cards sees the same values in a permutation
      and in its first k values. */
  lemma ShowsOnPrefix(q: seq<nat>, cards: seq<nat>, v: nat, k: nat)
    requires Below(cards, k) && k <= |q|
    ensures Shows(q, cards, v) <==> Shows(q[..k], cards, v)
  {
    if Shows(q, cards, v) {
      var i :| 0 <= i < |cards| && cards[i] < |q| && q[cards[i]] == v;
      assert q[..k][cards[i]] == v;
    }
    if Shows(q[..k], cards, v) {
      var i :| 0 <= i < |cards| && cards[i] < k && q[..k][cards[i]] == v;
      assert q[cards[i]] == v;
    }
  }

  lemma ConsistentOnPrefix(q: seq<nat>, clues: seq<Clue>, k: nat)
    requires CluesWithin(clues, k) && k <= |q|
    ensures Consistent(q, clues) <==> Consistent(q[..k], clues)
  {
    forall i | 0 <= i < |clues| ensures Shows(q, clues[i].cards, clues[i].value) <==> Shows(q[..k], clues[i].cards, clues[i].value) {
      ShowsOnPrefix(q, clues[i].cards, clues[i].value, k);
    }
  }

  /** Agreeing with a log of answers means agreeing with any dictionary whose
      entries all come from the log. */
  lemma ConsistentWithFewer(q: seq<nat>, log: seq<Clue>, clues: seq<Clue>)
    requires Consistent(q, log) && forall e :: e in clues ==> e in log
    ensures Consistent(q, clues)
  {
    forall i | 0 <= i < |clues| ensures Shows(q, clues[i].cards, clues[i].value) {
      assert clues[i] in log;
    }
  }

  /** Every answer in the log was to a probe of p distinct cards among t. */
  ghost predicate ProbesOf(log: seq<Clue>, t: nat, p: nat)
  {
    forall i :: 0 <= i < |log| ==> IsCombination(log[i].cards, 0, t, p)
  }

  /** Storing answer e in the dictionary keeps every stored clue among the
      answers received, and a well-formed probe keeps the log well-formed. */
  lemma Recorded(clues: seq<Clue>, log: seq<Clue>, e: Clue, t: nat, p: nat)
    requires IsDict(clues) && forall c :: c in clues ==> c in log
    requires ProbesOf(log, t, p) && IsCombination(e.cards, 0, t, p)
    ensures forall c :: c in Put(clues, e.cards, e.value) ==> c in log + [e]
    ensures ProbesOf(log + [e], t, p)
  {
    var longer := log + [e];
    forall c | c in Put(clues, e.cards, e.value) ensures c in longer {
      if c != e {
        assert c in log;
      }
    }
    forall i | 0 <= i < |longer| ensures IsCombination(longer[i].cards, 0, t, p) {
      if i < |log| {
        assert longer[i] == log[i];
      }
    }
  }
}
