/** SimulatedPlayer: after a first probe of cards 0..p-1 it keeps every
    sequence of values for the first i cards that agrees with all answers,
    and extends these prefixes one card at a time, after probing every
    p-tuple that ends at the new card. */
module SimulatedStrategy {
  import opened Options
  import opened Combinatorics
  import opened CardRules
  import opened CardEngine

  /** any(prefix[card] == value for card in cards), every card inside the prefix. */
  predicate AnyCardHolds(prefix: seq<nat>, cards: seq<nat>, value: nat)
    requires Below(cards, |prefix|)
  {
    exists j :: 0 <= j < |cards| && prefix[cards[j]] == value
  }

  /** is_valid: every clue has its value on some probed card of the prefix;
      the precondition is that every probed card lies inside the prefix. */
  function IsValid(prefix: seq<nat>, clues: seq<Clue>): (b: bool)
    requires CluesWithin(clues, |prefix|)
    ensures b <==> Consistent(prefix, clues)
  {
    assert forall i :: 0 <= i < |clues| ==>
      (AnyCardHolds(prefix, clues[i].cards, clues[i].value) <==> Shows(prefix, clues[i].cards, clues[i].value));
    forall i :: 0 <= i < |clues| ==> AnyCardHolds(prefix, clues[i].cards, clues[i].value)
  }

  /** The prefixes of permutations(range(t), p) that pass is_valid. */
  function FilterValid(candidates: seq<seq<nat>>, clues: seq<Clue>, p: nat): (r: seq<seq<nat>>)
    requires CluesWithin(clues, p) && forall c :: c in candidates ==> |c| == p
    ensures forall c :: c in r <==> c in candidates && Consistent(c, clues)
  {
    if candidates == [] then []
    else
      var rest := FilterValid(candidates[1..], clues, p);
      assert forall c :: c in candidates <==> c == candidates[0] || c in candidates[1..];
      if IsValid(candidates[0], clues) then [candidates[0]] + rest else rest
  }

  /** get_known_card: the first card on which every prefix has the same
      value (len(values) == 1), or None when there are no prefixes or no
      such card. */
  function KnownCard(prefixes: seq<seq<nat>>): (r: Option<(nat, nat)>)
    requires forall pr :: pr in prefixes ==> |pr| == |prefixes[0]|
    ensures prefixes == [] ==> r.None?
    ensures r.Some? ==> r.value.0 < |prefixes[0]| && forall pr :: pr in prefixes ==> pr[r.value.0] == r.value.1
    ensures r.Some? ==> forall c :: 0 <= c < r.value.0 ==> exists pr :: pr in prefixes && pr[c] != prefixes[0][c]
    ensures r.None? && prefixes != [] ==>
      forall c :: 0 <= c < |prefixes[0]| ==> exists pr :: pr in prefixes && pr[c] != prefixes[0][c]
  {
    if prefixes == [] then None else KnownCardFrom(prefixes, 0)
  }

  function KnownCardFrom(prefixes: seq<seq<nat>>, card: nat): (r: Option<(nat, nat)>)
    requires prefixes != [] && forall pr :: pr in prefixes ==> |pr| == |prefixes[0]|
    ensures r.Some? ==> card <= r.value.0 < |prefixes[0]| && forall pr :: pr in prefixes ==> pr[r.value.0] == r.value.1
    ensures r.Some? ==> forall c :: card <= c < r.value.0 ==> exists pr :: pr in prefixes && pr[c] != prefixes[0][c]
    ensures r.None? ==> forall c :: card <= c < |prefixes[0]| ==> exists pr :: pr in prefixes && pr[c] != prefixes[0][c]
    decreases |prefixes[0]| - card
  {
    if card >= |prefixes[0]| then None
    else if forall pr :: pr in prefixes ==> pr[card] == prefixes[0][card] then Some((card, prefixes[0][card]))
    else KnownCardFrom(prefixes, card + 1)
  }

  lemma ArrangementsHaveLength(t: nat, p: nat)
    ensures forall c :: c in Arrangements(t, p, {}) ==> |c| == p
  {
    forall c | c in Arrangements(t, p, {}) ensures |c| == p {
      ArrangementsMembers(t, p, {}, c);
    }
  }

  /** The probes of group i: combinations(range(i), p - 1) each followed by i. */
  lemma GroupProbe(i: nat, p: nat, t: nat, c: seq<nat>)
    requires 1 <= p && i < t && c in Combinations(i, p - 1)
    ensures IsCombination(c + [i], 0, t, p) && Below(c + [i], i + 1)
  {
    CombinationsMembers(0, i, p - 1, c);
  }

  class SimulatedPlayer {
    const nbCards: nat
    const p: nat
    var clues: seq<Clue>
    var prefixes: Option<seq<seq<nat>>>
    /** The length of every prefix. */
    ghost var width: nat
    /** Every answer received, in order. */
    ghost var history: seq<Clue>

    ghost predicate Valid()
      reads this
    {
      1 <= p <= nbCards && IsDict(clues)
      && (forall e :: e in clues ==> e in history)
      && ProbesOf(history, nbCards, p)
    }

    /** The engine's permutations all agree with every answer it gave. */
    ghost predicate EngineAgrees(engine: Engine)
      reads this, engine
    {
      engine.nbCards == nbCards && engine.Valid()
      && forall q :: q in engine.permutations ==> Consistent(q, history)
    }

    /** The prefixes are value sequences of `width` distinct values below t,
        and no permutation agreeing with every answer has been discarded. */
    ghost predicate Complete()
      reads this
    {
      prefixes.Some? && p <= width <= nbCards
      && (forall pr :: pr in prefixes.value ==> |pr| == width && Below(pr, nbCards) && Distinct(pr))
      && forall q :: IsPermutation(q, nbCards) && Consistent(q, history) ==> q[..width] in prefixes.value
    }

    constructor (nbCards: nat, p: nat)
      requires 1 <= p <= nbCards
      ensures this.nbCards == nbCards && this.p == p && Valid()
      ensures clues == [] && prefixes == None && history == []
    {
      this.nbCards := nbCards;
      this.p := p;
      clues := [];
      prefixes := None;
      history := [];
    }

    /** add_clue: the answer is recorded; the invariants hold on, and since
        an answer can only rule permutations out, completeness too. */
    method AddClue(cards: seq<nat>, value: nat)
      requires Valid() && IsCombination(cards, 0, nbCards, p)
      modifies this
      ensures clues == Put(old(clues), cards, value) && history == old(history) + [Clue(cards, value)]
      ensures prefixes == old(prefixes) && width == old(width)
      ensures Valid()
      ensures old(Complete()) ==> Complete()
      ensures forall k :: old(AskedWithin(k)) && Below(cards, k) ==> AskedWithin(k)
    {
      ghost var log := history;
      ghost var wasComplete := Complete();
      ghost var e := Clue(cards, value);
      clues := Put(clues, cards, value);
      history := history + [e];
      Recorded(old(clues), log, e, nbCards, p);
      if wasComplete {
        assert Complete() by {
          forall q | IsPermutation(q, nbCards) && Consistent(q, history) ensures q[..width] in prefixes.value {
            ConsistentAppend(q, log, e);
          }
        }
      }
      forall k | old(AskedWithin(k)) && Below(cards, k) ensures AskedWithin(k) {
        AskedAppend(log, e, k);
      }
    }

    /** One turn of the game loop: the engine answers the probe the player
        yields, and the player records the answer. */
    method Turn(engine: Engine, cards: seq<nat>)
      requires Valid() && EngineAgrees(engine) && IsCombination(cards, 0, nbCards, p)
      modifies this, engine
      ensures Valid() && EngineAgrees(engine)
      ensures prefixes == old(prefixes) && width == old(width)
      ensures |history| == |old(history)| + 1 && history[..|old(history)|] == old(history)
      ensures history[|old(history)|].cards == cards
      ensures SharesOnAllProbes(old(engine.permutations), nbCards, p) ==> engine.permutations == old(engine.permutations)
      ensures old(Complete()) ==> Complete()
      ensures forall k :: old(AskedWithin(k)) && Below(cards, k) ==> AskedWithin(k)
    {
      assert cards != [] by { assert |cards| == p; }
      ghost var log := history;
      ghost var before := engine.permutations;
      var value := engine.GetValue(cards);
      AddClue(cards, value);
      assert history[..|log|] == log;
      assert EngineAgrees(engine) by {
        forall q | q in engine.permutations ensures Consistent(q, history) {
          assert q in before;
          ConsistentAppend(q, log, Clue(cards, value));
        }
      }
    }

    /** Lines 171-180. */
    method ExtendPrefixes()
      requires Valid() && prefixes.Some? && width < nbCards && CluesWithin(clues, width + 1)
      requires forall pr :: pr in prefixes.value ==> |pr| == width
      modifies this
      ensures clues == old(clues) && history == old(history) && width == old(width) + 1 && prefixes.Some?
      ensures forall e :: e in prefixes.value <==>
        |e| == width && e[..width - 1] in old(prefixes.value)
        && e[width - 1] < nbCards && e[width - 1] !in e[..width - 1] && Consistent(e, clues)
    {
      var extended := Extend(prefixes.value, width, clues, nbCards);
      prefixes := Some(extended);
      width := width + 1;
    }

    /** Every answer so far was to a probe among the first k cards. */
    ghost predicate AskedWithin(k: nat)
      reads this
    {
      AllWithin(history, k)
    }

    lemma CluesFromHistory(k: nat)
      requires Valid() && AskedWithin(k)
      ensures CluesWithin(clues, k)
    {
      forall m | 0 <= m < |clues| ensures Below(clues[m].cards, k) {
        assert clues[m] in history;
      }
    }

    /** Lines 162-165: probe cards 0..p-1, then keep the arrangements of p
        values that agree with the answer. */
    method FirstProbe(engine: Engine)
      requires Valid() && EngineAgrees(engine) && clues == [] && history == []
      modifies this, engine
      ensures Valid() && EngineAgrees(engine) && Complete() && width == p && AskedWithin(p)
      ensures SharesOnAllProbes(old(engine.permutations), nbCards, p) ==> engine.permutations == old(engine.permutations)
    {
      var cards := seq(p, k requires 0 <= k < p => k);
      assert IsCombination(cards, 0, nbCards, p);
      Turn(engine, cards);
      CluesFromHistory(p);
      ArrangementsHaveLength(nbCards, p);
      prefixes := Some(FilterValid(Arrangements(nbCards, p, {}), clues, p));
      width := p;
      InitialPrefixesComplete();
    }

    lemma InitialPrefixesComplete()
      requires Valid() && CluesWithin(clues, p) && width == p
      requires forall c :: c in Arrangements(nbCards, p, {}) ==> |c| == p
      requires prefixes == Some(FilterValid(Arrangements(nbCards, p, {}), clues, p))
      ensures Complete()
    {
      forall q | IsPermutation(q, nbCards) && Consistent(q, history) ensures q[..p] in prefixes.value {
        ArrangementsMembers(nbCards, p, {}, q[..p]);
        ConsistentWithFewer(q, history, clues);
        ConsistentOnPrefix(q, clues, p);
      }
      forall pr | pr in prefixes.value ensures Below(pr, nbCards) && Distinct(pr) {
        ArrangementsMembers(nbCards, p, {}, pr);
      }
    }

    /** Lines 168-169: every probe combinations(range(i), p - 1) + (i,). */
    method ProbeGroup(engine: Engine, i: nat)
      requires Valid() && EngineAgrees(engine) && Complete() && width == i < nbCards && AskedWithin(i)
      modifies this, engine
      ensures Valid() && EngineAgrees(engine) && Complete() && width == i && AskedWithin(i + 1)
      ensures prefixes == old(prefixes)
      ensures SharesOnAllProbes(old(engine.permutations), nbCards, p) ==> engine.permutations == old(engine.permutations)
    {
      var group := Combinations(i, p - 1);
      for k := 0 to |group|
        invariant Valid() && EngineAgrees(engine) && Complete() && width == i && AskedWithin(i + 1)
        invariant prefixes == old(prefixes)
        invariant SharesOnAllProbes(old(engine.permutations), nbCards, p) ==> engine.permutations == old(engine.permutations)
      {
        GroupProbe(i, p, nbCards, group[k]);
        Turn(engine, group[k] + [i]);
      }
    }

    /** find_card with every yield answered by the engine before it resumes. */
    method FindCard(engine: Engine)
      requires Valid() && EngineAgrees(engine) && clues == [] && history == []
      modifies this, engine
      ensures Valid() && EngineAgrees(engine) && Complete()
      ensures SharesOnAllProbes(old(engine.permutations), nbCards, p) ==> engine.permutations == old(engine.permutations)
    {
      FirstProbe(engine);
      for i := p to nbCards
        invariant Valid() && EngineAgrees(engine) && Complete() && width == i && AskedWithin(i)
        invariant SharesOnAllProbes(old(engine.permutations), nbCards, p) ==> engine.permutations == old(engine.permutations)
      {
        var known := NextCard(engine, i);
        if known {
          return;
        }
      }
    }

    /** One round of the loop of find_card: probe every group ending in
        card i, extend the prefixes by one card, and say whether a card is
        now known. */
    method NextCard(engine: Engine, i: nat) returns (known: bool)
      requires Valid() && EngineAgrees(engine) && Complete() && width == i < nbCards && AskedWithin(i)
      modifies this, engine
      ensures Valid() && EngineAgrees(engine) && Complete() && width == i + 1 && AskedWithin(i + 1)
      ensures known <==> KnownCard(prefixes.value).Some?
      ensures SharesOnAllProbes(old(engine.permutations), nbCards, p) ==> engine.permutations == old(engine.permutations)
    {
      ProbeGroup(engine, i);
      CluesFromHistory(i + 1);
      ghost var previous := prefixes.value;
      ExtendPrefixes();
      ExtendedIsComplete(previous);
      known := KnownCard(prefixes.value).Some?;
    }

    /** The extension keeps completeness one card further. */
    lemma ExtendedIsComplete(previous: seq<seq<nat>>)
      requires Valid() && prefixes.Some? && p < width <= nbCards
      requires forall pr :: pr in previous ==> |pr| == width - 1 && Below(pr, nbCards) && Distinct(pr)
      requires forall q :: IsPermutation(q, nbCards) && Consistent(q, history) ==> q[..width - 1] in previous
      requires CluesWithin(clues, width)
      requires forall e :: e in prefixes.value <==>
        |e| == width && e[..width - 1] in previous
        && e[width - 1] < nbCards && e[width - 1] !in e[..width - 1] && Consistent(e, clues)
      ensures Complete()
    {
      forall pr | pr in prefixes.value ensures |pr| == width && Below(pr, nbCards) && Distinct(pr) {
        var base := pr[..width - 1];
        assert pr == base + [pr[width - 1]];
        forall i, j | 0 <= i < j < width ensures pr[i] != pr[j] {
          if j < width - 1 { assert pr[i] == base[i] && pr[j] == base[j]; }
          else { assert pr[i] == base[i]; }
        }
        forall i | 0 <= i < width ensures pr[i] < nbCards {
          if i < width - 1 { assert pr[i] == base[i]; }
        }
      }
      forall q | IsPermutation(q, nbCards) && Consistent(q, history) ensures q[..width] in prefixes.value {
        var e := q[..width];
        assert e[..width - 1] == q[..width - 1];
        ConsistentWithFewer(q, history, clues);
        ConsistentOnPrefix(q, clues, width);
      }
    }

    /** guess_a_card: the known card if there is one, otherwise any value of
        any prefix. */
    method GuessACard() returns (card: nat, value: nat, deduced: bool)
      requires Valid() && Complete() && prefixes.value != []
      ensures deduced <==> KnownCard(prefixes.value).Some?
      ensures deduced ==> (card, value) == KnownCard(prefixes.value).value
      ensures exists pr :: pr in prefixes.value && card < |pr| && pr[card] == value
      ensures card < nbCards
    {
      var known := KnownCard(prefixes.value);
      if known.Some? {
        card, value := known.value.0, known.value.1;
        deduced := true;
        assert prefixes.value[0][card] == value;
        return;
      }
      deduced := false;
      assert prefixes.value[0] in prefixes.value;
      var prefix :| prefix in prefixes.value;
      assert 0 in Range(|prefix|);
      card :| card in Range(|prefix|);
      value := prefix[card];
    }
  }

  /** Every answer of the log was to a probe among the first k cards. */
  ghost predicate AllWithin(log: seq<Clue>, k: nat)
  {
    forall m :: 0 <= m < |log| ==> Below(log[m].cards, k)
  }

  lemma AskedAppend(log: seq<Clue>, e: Clue, k: nat)
    requires AllWithin(log, k) && Below(e.cards, k)
    ensures AllWithin(log + [e], k)
  {
    var longer := log + [e];
    forall m | 0 <= m < |longer| ensures Below(longer[m].cards, k) {
      if m < |log| {
        assert longer[m] == log[m];
      }
    }
  }

  /** `e` is a prefix of `previous` followed by a value below `bound` that it
      does not hold yet, and `e` agrees with every clue. */
  ghost predicate ExtensionOf(e: seq<nat>, previous: seq<seq<nat>>, width: nat, clues: seq<Clue>, bound: nat)
  {
    |e| == width + 1 && e[..width] in previous && e[width] < bound
    && e[width] !in e[..width] && Consistent(e, clues)
  }

  /** Each prefix followed by each value below t that it does not hold yet,
      kept when it agrees with every clue; values in the outer loop. */
  method Extend(previous: seq<seq<nat>>, ghost width: nat, clues: seq<Clue>, t: nat) returns (extended: seq<seq<nat>>)
    requires CluesWithin(clues, width + 1) && forall pr :: pr in previous ==> |pr| == width
    ensures forall e :: e in extended <==> ExtensionOf(e, previous, width, clues, t)
  {
    extended := [];
    for value := 0 to t
      invariant forall e :: e in extended <==> ExtensionOf(e, previous, width, clues, value)
    {
      for j := 0 to |previous|
        invariant forall e :: e in extended <==>
          ExtensionOf(e, previous, width, clues, value)
          || (ExtensionOf(e, previous[..j], width, clues, value + 1) && e[width] == value)
      {
        var prefix := previous[j];
        assert prefix in previous;
        if value in prefix {
          ExtensionStep(previous, j, width, clues, value, false);
          continue;
        }
        prefix := prefix + [value];
        if IsValid(prefix, clues) {
          extended := extended + [prefix];
        }
        ExtensionStep(previous, j, width, clues, value, Consistent(prefix, clues));
      }
      assert previous[..|previous|] == previous;
    }
  }

  /** Considering prefix j for `value` adds exactly previous[j] + [value]
      when `added` says it is an extension, and nothing otherwise. */
  lemma ExtensionStep(previous: seq<seq<nat>>, j: nat, width: nat, clues: seq<Clue>, value: nat, added: bool)
    requires j < |previous| && |previous[j]| == width
    requires added <==> value !in previous[j] && Consistent(previous[j] + [value], clues)
    ensures forall e ::
      (ExtensionOf(e, previous[..j + 1], width, clues, value + 1) && e[width] == value) <==>
      (ExtensionOf(e, previous[..j], width, clues, value + 1) && e[width] == value)
      || (added && e == previous[j] + [value])
  {
    forall e
      ensures (ExtensionOf(e, previous[..j + 1], width, clues, value + 1) && e[width] == value) <==>
        (ExtensionOf(e, previous[..j], width, clues, value + 1) && e[width] == value)
        || (added && e == previous[j] + [value])
    {
      assert forall b :: b in previous[..j + 1] <==> b in previous[..j] || b == previous[j];
      if |e| == width + 1 {
        assert e == e[..width] + [e[width]];
      }
      if e == previous[j] + [value] {
        assert e[..width] == previous[j];
      }
    }
  }

  /** main(t, p, SimulatedPlayer): the engine is set up with the shuffle
      `order` and the rotations `picks`, the player probes until its
      generator is exhausted, then guesses, and the engine resolves the
      guess. A deduced card always wins; with t <= 3(p - 1) the engine keeps
      both seeds and no guess can win. */
  method PlaySimulated(t: nat, p: nat, picks: seq<bool>, order: seq<nat>)
    returns (card: nat, value: nat, deduced: bool, won: bool)
    requires 1 <= p <= t && IsPermutation(order, t) && EnoughPicks(t, picks)
    ensures deduced ==> won
    ensures t <= 3 * (p - 1) ==> !won && !deduced
  {
    var engine := new Engine(t, picks, order);
    ghost var seeds := engine.permutations;
    var player := new SimulatedPlayer(t, p);
    player.FindCard(engine);
    ghost var survivor := engine.permutations[0];
    assert survivor in engine.permutations;
    assert survivor[..player.width] in player.prefixes.value;
    card, value, deduced := player.GuessACard();
    var answer := engine.Verify(card, value);
    won := answer[card] == value;
    if deduced {
      forall q | q in engine.permutations ensures q[card] == value {
        assert q[..player.width] in player.prefixes.value;
        assert q[..player.width][card] == value;
      }
    }
    if t <= 3 * (p - 1) {
      SeedsShareOnAllProbes(t, p, picks, order, seeds[1]);
      assert engine.permutations == seeds;
      PartnerInRange(t, picks, order[card]);
      assert seeds[0][card] != seeds[1][card];
    }
  }
}
