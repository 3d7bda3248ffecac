/** NamiswanPlayer: asks every p-tuple of cards once, then, for each answered
    value, intersects the probes that were answered with it; a value whose
    intersection is a single card gives that card's value. */
module NamiswanStrategy {
  import opened Options
  import opened Numbers
  import opened Combinatorics
  import opened CardRules
  import opened CardEngine

  /** One entry of the `intersections` dictionary. */
  datatype Group = Group(value: nat, cards: set<nat>)

  /** The answers in the order the clues were recorded. */
  function Answers(clues: seq<Clue>): (vs: seq<nat>)
    ensures |vs| == |clues| && forall m :: 0 <= m < |clues| ==> vs[m] == clues[m].value
  {
    seq(|clues|, m requires 0 <= m < |clues| => clues[m].value)
  }

  /** The distinct elements of `s` in the order they first appear. */
  function FirstAppearances(s: seq<nat>): seq<nat>
  {
    if s == [] then []
    else
      var front := FirstAppearances(s[..|s| - 1]);
      if s[|s| - 1] in front then front else front + [s[|s| - 1]]
  }

  lemma {:induction false} FirstAppearancesMembers(s: seq<nat>)
    ensures Distinct(FirstAppearances(s))
    ensures forall x :: x in FirstAppearances(s) <==> x in s
  {
    if s != [] {
      var front := s[..|s| - 1];
      FirstAppearancesMembers(front);
      assert s == front + [s[|s| - 1]];
    }
  }

  /** Every card that was probed at least once. */
  function Probed(clues: seq<Clue>): (r: set<nat>)
    ensures forall c :: c in r <==> exists m :: 0 <= m < |clues| && c in clues[m].cards
  {
    if clues == [] then {}
    else
      var front := clues[..|clues| - 1];
      var r := Probed(front) + Elements(clues[|clues| - 1].cards);
      ElementsMembers(clues[|clues| - 1].cards);
      assert forall m :: 0 <= m < |front| ==> front[m] == clues[m];
      r
  }

  /** Card `c` is in every probe answered with `v`. */
  ghost predicate InAllAnswered(clues: seq<Clue>, v: nat, c: nat)
  {
    forall m :: 0 <= m < |clues| && clues[m].value == v ==> c in clues[m].cards
  }

  /** The intersection of the probes answered with `v`. */
  ghost function CommonCards(clues: seq<Clue>, v: nat): set<nat>
  {
    set c | c in Probed(clues) && InAllAnswered(clues, v, c)
  }

  /** Some probe was answered with `v`. */
  ghost predicate Answered(clues: seq<Clue>, v: nat)
  {
    exists m :: 0 <= m < |clues| && clues[m].value == v
  }

  function GroupValues(groups: seq<Group>): (vs: seq<nat>)
    ensures |vs| == |groups| && forall i :: 0 <= i < |groups| ==> vs[i] == groups[i].value
  {
    seq(|groups|, i requires 0 <= i < |groups| => groups[i].value)
  }

  /** The position of `v` among the keys, |groups| when it is not a key. */
  function GroupIndex(groups: seq<Group>, v: nat): (k: nat)
    ensures k <= |groups|
    ensures k < |groups| ==> groups[k].value == v
    ensures k == |groups| ==> forall i :: 0 <= i < |groups| ==> groups[i].value != v
  {
    if groups == [] then 0
    else if groups[0].value == v then 0
    else 1 + GroupIndex(groups[1..], v)
  }

  /** Lines 297-302: for each clue in order, the first probe answered with
      its value opens a group and later ones are intersected into it. The
      groups follow the order in which the values were first answered, and
      each holds the intersection of the probes answered with its value. */
  method Intersections(clues: seq<Clue>) returns (groups: seq<Group>)
    ensures GroupValues(groups) == FirstAppearances(Answers(clues))
    ensures forall i :: 0 <= i < |groups| ==> groups[i].cards == CommonCards(clues, groups[i].value)
  {
    groups := [];
    for m := 0 to |clues|
      invariant GroupValues(groups) == FirstAppearances(Answers(clues[..m]))
      invariant forall i :: 0 <= i < |groups| ==> groups[i].cards == CommonCards(clues[..m], groups[i].value)
    {
      var e := clues[m];
      var k := GroupIndex(groups, e.value);
      ghost var before := groups;
      assert Answers(clues[..m + 1]) == Answers(clues[..m]) + [e.value];
      assert clues[..m + 1][..m] == clues[..m];
      FirstAppearancesMembers(Answers(clues[..m]));
      if k < |groups| {
        assert e.value in GroupValues(groups);
        groups := groups[k := Group(e.value, groups[k].cards * Elements(e.cards))];
        assert GroupValues(groups) == GroupValues(before);
      } else {
        assert e.value !in GroupValues(groups);
        groups := groups + [Group(e.value, Elements(e.cards))];
        assert GroupValues(groups) == GroupValues(before) + [e.value];
      }
      forall i | 0 <= i < |groups| ensures groups[i].cards == CommonCards(clues[..m + 1], groups[i].value) {
        if i < |before| {
          assert GroupValues(before)[i] == groups[i].value;
          AnsweredIff(clues[..m], groups[i].value);
        } else {
          AnsweredIff(clues[..m], e.value);
        }
        CommonCardsStep(clues[..m + 1], groups[i].value, if i < |before| then before[i].cards else {}, i < |before|);
      }
    }
    assert clues[..|clues|] == clues;
  }

  /** Adding a clue intersects its probe into the group of its value and
      leaves the other groups alone; a value answered for the first time
      gets the cards of the probe. */
  lemma CommonCardsStep(clues: seq<Clue>, v: nat, previous: set<nat>, seen: bool)
    requires clues != []
    requires seen ==> previous == CommonCards(clues[..|clues| - 1], v) && Answered(clues[..|clues| - 1], v)
    requires !seen ==> clues[|clues| - 1].value == v && !Answered(clues[..|clues| - 1], v)
    ensures CommonCards(clues, v) ==
      (if clues[|clues| - 1].value != v then previous
       else if seen then previous * Elements(clues[|clues| - 1].cards)
       else Elements(clues[|clues| - 1].cards))
  {
    var n := |clues| - 1;
    var front := clues[..n];
    var last := clues[n];
    ElementsMembers(last.cards);
    assert forall m :: 0 <= m < n ==> front[m] == clues[m];
    var expected := if last.value != v then previous else if seen then previous * Elements(last.cards) else Elements(last.cards);
    forall c ensures c in CommonCards(clues, v) <==> c in expected {
      if c in CommonCards(clues, v) {
        assert InAllAnswered(front, v, c);
        if last.value != v {
          var m :| 0 <= m < |clues| && c in clues[m].cards;
          if m == n {
            assert seen;
            var m' :| 0 <= m' < n && front[m'].value == v;
            assert c in front[m'].cards;
          }
        }
      }
      if last.value != v && c in previous {
        var m :| 0 <= m < n && c in front[m].cards;
        assert c in clues[m].cards;
      }
      if last.value == v && c in last.cards {
        assert c in Probed(clues) by { assert c in clues[n].cards; }
        if !seen {
          assert InAllAnswered(clues, v, c);
        }
      }
    }
  }

  /** Namiswan's argument: a permutation that agrees with every clue puts
      an answered value on a card that is in every probe answered with it,
      so a value whose probes meet in a single card is that card's value. */
  lemma CommonCardHoldsValue(q: seq<nat>, t: nat, clues: seq<Clue>, v: nat) returns (c: nat)
    requires IsPermutation(q, t) && Consistent(q, clues) && Answered(clues, v)
    ensures c in CommonCards(clues, v) && c < t && q[c] == v
  {
    var m0 :| 0 <= m0 < |clues| && clues[m0].value == v;
    assert Shows(q, clues[m0].cards, v);
    var i0 :| 0 <= i0 < |clues[m0].cards| && clues[m0].cards[i0] < |q| && q[clues[m0].cards[i0]] == v;
    c := clues[m0].cards[i0];
    forall m | 0 <= m < |clues| && clues[m].value == v ensures c in clues[m].cards {
      assert Shows(q, clues[m].cards, v);
      var i :| 0 <= i < |clues[m].cards| && clues[m].cards[i] < |q| && q[clues[m].cards[i]] == v;
      assert q[clues[m].cards[i]] == q[c];
    }
  }

  lemma SingletonHoldsValue(q: seq<nat>, t: nat, clues: seq<Clue>, v: nat, c: nat)
    requires IsPermutation(q, t) && Consistent(q, clues) && Answered(clues, v)
    requires CommonCards(clues, v) == {c}
    ensures c < t && q[c] == v
  {
    var d := CommonCardHoldsValue(q, t, clues, v);
  }

  /** The first group whose intersection is a single card, |groups| if none. */
  function FirstSingleton(groups: seq<Group>): (k: nat)
    ensures k <= |groups|
    ensures k < |groups| ==> |groups[k].cards| == 1
    ensures forall i :: 0 <= i < k ==> |groups[i].cards| != 1
  {
    if groups == [] then 0
    else if |groups[0].cards| == 1 then 0
    else 1 + FirstSingleton(groups[1..])
  }

  lemma CombinationsAreProbes(t: nat, p: nat)
    ensures forall c :: c in Combinations(t, p) <==> IsCombination(c, 0, t, p)
  {
    forall c ensures c in Combinations(t, p) <==> IsCombination(c, 0, t, p) {
      CombinationsMembers(0, t, p, c);
    }
  }

  class NamiswanPlayer {
    const nbCards: nat
    const p: nat
    var clues: seq<Clue>
    /** Every answer received, in order. */
    ghost var history: seq<Clue>

    ghost predicate Valid()
      reads this
    {
      1 <= p <= nbCards && IsDict(clues)
      && (forall e :: e in clues ==> e in history)
      && ProbesOf(history, nbCards, p)
    }

    ghost predicate EngineAgrees(engine: Engine)
      reads this, engine
    {
      engine.nbCards == nbCards && engine.Valid()
      && forall q :: q in engine.permutations ==> Consistent(q, history)
    }

    constructor (nbCards: nat, p: nat)
      requires 1 <= p <= nbCards
      ensures this.nbCards == nbCards && this.p == p && Valid()
      ensures clues == [] && history == []
    {
      this.nbCards := nbCards;
      this.p := p;
      clues := [];
      history := [];
    }

    /** add_clue. */
    method AddClue(cards: seq<nat>, value: nat)
      requires IsDict(clues)
      modifies this
      ensures clues == Put(old(clues), cards, value) && history == old(history) + [Clue(cards, value)]
    {
      clues := Put(clues, cards, value);
      history := history + [Clue(cards, value)];
    }

    /** One turn of the game loop: the engine answers the yielded probe and
        the player records the answer. */
    method Turn(engine: Engine, cards: seq<nat>)
      requires Valid() && EngineAgrees(engine) && IsCombination(cards, 0, nbCards, p)
      modifies this, engine
      ensures Valid() && EngineAgrees(engine)
      ensures cards in Keys(clues) && forall c :: c in Keys(old(clues)) ==> c in Keys(clues)
      ensures SharesOnAllProbes(old(engine.permutations), nbCards, p) ==> engine.permutations == old(engine.permutations)
    {
      assert cards != [] by { assert |cards| == p; }
      var value := engine.GetValue(cards);
      Recorded(clues, history, Clue(cards, value), nbCards, p);
      AddClue(cards, value);
      forall q | q in engine.permutations ensures Consistent(q, history) {
        assert q in old(engine.permutations);
      }
      assert Lookup(clues, cards).Some?;
      PutKeepsKeys(old(clues), cards, value);
    }

    /** ask_all_combinations, every yield answered by the engine: afterwards
        every p-tuple of cards has been asked. */
    method AskAllCombinations(engine: Engine)
      requires Valid() && EngineAgrees(engine) && clues == []
      modifies this, engine
      ensures Valid() && EngineAgrees(engine)
      ensures forall c :: IsCombination(c, 0, nbCards, p) ==> c in Keys(clues)
      ensures SharesOnAllProbes(old(engine.permutations), nbCards, p) ==> engine.permutations == old(engine.permutations)
    {
      var all := Combinations(nbCards, p);
      CombinationsAreProbes(nbCards, p);
      for k := 0 to |all|
        invariant Valid() && EngineAgrees(engine)
        invariant forall j :: 0 <= j < k ==> all[j] in Keys(clues)
        invariant SharesOnAllProbes(old(engine.permutations), nbCards, p) ==> engine.permutations == old(engine.permutations)
      {
        assert all[k] in all;
        Turn(engine, all[k]);
      }
      forall c | IsCombination(c, 0, nbCards, p) ensures c in Keys(clues) {
        var j :| 0 <= j < |all| && all[j] == c;
      }
    }

    /** Every probed card is a card of the game. */
    lemma ProbedBelow(c: nat)
      requires Valid() && c in Probed(clues)
      ensures c < nbCards
    {
      var m :| 0 <= m < |clues| && c in clues[m].cards;
      assert clues[m] in history;
      var h :| 0 <= h < |history| && history[h] == clues[m];
      assert IsCombination(history[h].cards, 0, nbCards, p);
    }

    /** guess_a_card: the value of the first group, in the order values were
        first answered, whose intersection is a single card; otherwise a
        random value and a random card of its intersection. None stands for
        the error raised when there is no clue or the drawn intersection is
        empty. */
    method GuessACard() returns (guess: Option<(nat, nat)>, deduced: bool)
      requires Valid()
      ensures deduced ==>
        guess.Some? && Answered(clues, guess.value.1) && CommonCards(clues, guess.value.1) == {guess.value.0}
      ensures var first := FirstAppearances(Answers(clues));
        deduced ==> (guess.value.1 in first && forall j :: 0 <= j < FirstIndex(first, guess.value.1) ==> |CommonCards(clues, first[j])| != 1)
      ensures !deduced ==> forall v :: Answered(clues, v) ==> |CommonCards(clues, v)| != 1
      ensures !deduced && guess.Some? ==> Answered(clues, guess.value.1) && guess.value.0 in CommonCards(clues, guess.value.1)
      ensures guess.None? ==> clues == [] || exists v :: Answered(clues, v) && CommonCards(clues, v) == {}
    {
      var groups := Intersections(clues);
      FirstAppearancesMembers(Answers(clues));
      var k := FirstSingleton(groups);
      if k < |groups| {
        var v := groups[k].value;
        var card := Pop(groups[k].cards);
        guess, deduced := Some((card, v)), true;
        assert v in FirstAppearances(Answers(clues)) by { assert GroupValues(groups)[k] == v; }
        AnsweredFromAnswers(clues, v);
        var first := FirstAppearances(Answers(clues));
        assert FirstIndex(first, v) <= k;
        forall j | 0 <= j < FirstIndex(first, v) ensures |CommonCards(clues, first[j])| != 1 {
          assert groups[j].cards == CommonCards(clues, first[j]);
        }
        return;
      }
      deduced := false;
      forall v | Answered(clues, v) ensures |CommonCards(clues, v)| != 1 {
        var m :| 0 <= m < |clues| && clues[m].value == v;
        assert v in Answers(clues);
        var j := FirstIndex(GroupValues(groups), v);
        assert groups[j].cards == CommonCards(clues, v);
      }
      if groups == [] {
        guess := None;
        return;
      }
      assert groups[0] in groups;
      var g :| g in groups;
      var i :| 0 <= i < |groups| && groups[i] == g;
      assert g.value in FirstAppearances(Answers(clues)) by { assert GroupValues(groups)[i] == g.value; }
      AnsweredFromAnswers(clues, g.value);
      if g.cards == {} {
        guess := None;
        return;
      }
      // random.choice: any card of the group's intersection
      var c :| c in g.cards;
      guess := Some((c, g.value));
    }
  }

  lemma AnsweredFromAnswers(clues: seq<Clue>, v: nat)
    requires v in FirstAppearances(Answers(clues))
    ensures Answered(clues, v)
  {
    AnsweredIff(clues, v);
  }

  /** A value has been answered exactly when it is a key of the groups. */
  lemma AnsweredIff(clues: seq<Clue>, v: nat)
    ensures Answered(clues, v) <==> v in FirstAppearances(Answers(clues))
  {
    FirstAppearancesMembers(Answers(clues));
    if v in Answers(clues) {
      var m :| 0 <= m < |clues| && Answers(clues)[m] == v;
    }
    if Answered(clues, v) {
      var m :| 0 <= m < |clues| && clues[m].value == v;
      assert Answers(clues)[m] == v;
    }
  }

  /** The first position of `x` in `s`. */
  function FirstIndex(s: seq<nat>, x: nat): (i: nat)
    requires x in s
    ensures i < |s| && s[i] == x && forall k :: 0 <= k < i ==> s[k] != x
  {
    if s[0] == x then 0 else 1 + FirstIndex(s[1..], x)
  }

  /** main(t, p, NamiswanPlayer), with the engine's shuffle and rotations as
      parameters. The guess never meets an empty choice, a deduced card
      always wins, and with t <= 3(p - 1) the engine keeps both seeds and
      no guess can win. */
  method PlayNamiswan(t: nat, p: nat, picks: seq<bool>, order: seq<nat>)
    returns (card: nat, value: nat, deduced: bool, won: bool)
    requires 1 <= p <= t && IsPermutation(order, t) && EnoughPicks(t, picks)
    ensures deduced ==> won
    ensures t <= 3 * (p - 1) ==> !won && !deduced
  {
    var engine := new Engine(t, picks, order);
    ghost var seeds := engine.permutations;
    var player := new NamiswanPlayer(t, p);
    player.AskAllCombinations(engine);
    ghost var survivor := engine.permutations[0];
    assert survivor in engine.permutations;
    ConsistentWithFewer(survivor, player.history, player.clues);
    var first := seq(p, k requires 0 <= k < p => k);
    assert IsCombination(first, 0, t, p);
    assert player.clues != [];
    forall v | Answered(player.clues, v) ensures CommonCards(player.clues, v) != {} {
      var c := CommonCardHoldsValue(survivor, t, player.clues, v);
    }
    var guess;
    guess, deduced := player.GuessACard();
    assert guess.Some?;
    card, value := guess.value.0, guess.value.1;
    player.ProbedBelow(card);
    var answer := engine.Verify(card, value);
    won := answer[card] == value;
    if deduced {
      forall q | q in engine.permutations ensures q[card] == value {
        ConsistentWithFewer(q, player.history, player.clues);
        SingletonHoldsValue(q, t, player.clues, value, card);
      }
    }
    if t <= 3 * (p - 1) {
      SeedsShareOnAllProbes(t, p, picks, order, seeds[1]);
      assert engine.permutations == seeds;
      PartnerInRange(t, picks, order[card]);
      assert seeds[0][card] != seeds[1][card];
    }
  }
}
