/** The engine of the card game: it holds the permutations it may still
    claim are the hidden values, answers probes so that all of them agree
    with every answer, and resolves the final guess against the player
    whenever it can. */
module CardEngine {
  import opened Options
  import opened Combinatorics
  import opened CardRules

  /** n = t - [0, 4, 2][t % 3]: cards below n are grouped in triples, the
      remaining ones (4, 2 or none) in pairs. */
  function TripleEnd(t: nat): int
  {
    t - (if t % 3 == 0 then 0 else if t % 3 == 1 then 4 else 2)
  }

  /** One pick per triple: true takes the first of the two rotations. */
  predicate EnoughPicks(t: nat, picks: seq<bool>)
  {
    t < 2 || 3 * |picks| >= TripleEnd(t)
  }

  /** The second seed permutation before the shuffle: each triple is rotated
      one way or the other as `picks` says, each pair is swapped. With a
      single card the negative slice bounds leave the card's own value. */
  function Partner(t: nat, picks: seq<bool>, j: nat): nat
    requires j < t && EnoughPicks(t, picks)
  {
    if t == 1 then 0
    else
      var n := TripleEnd(t);
      if j < n then
        var base := j - j % 3;
        if picks[j / 3] then base + (j % 3 + 1) % 3 else base + (j % 3 + 2) % 3
      else if (j - n) % 2 == 0 then j + 1
      else j - 1
  }

  /** The triples end on a multiple of 3 and leave an even number of cards. */
  lemma TripleEndFacts(t: nat)
    requires t >= 2
    ensures 0 <= TripleEnd(t) <= t && TripleEnd(t) % 3 == 0 && (t - TripleEnd(t)) % 2 == 0
  {
  }

  /** The partners inside the triple that starts at card i. */
  lemma PartnersOfTriple(t: nat, picks: seq<bool>, i: nat)
    requires 2 <= t && EnoughPicks(t, picks) && i % 3 == 0 && i + 3 <= TripleEnd(t)
    ensures i / 3 < |picks|
    ensures picks[i / 3] ==> Partner(t, picks, i) == i + 1 && Partner(t, picks, i + 1) == i + 2 && Partner(t, picks, i + 2) == i
    ensures !picks[i / 3] ==> Partner(t, picks, i) == i + 2 && Partner(t, picks, i + 1) == i && Partner(t, picks, i + 2) == i + 1
  {
    assert (i + 1) / 3 == i / 3 && (i + 1) % 3 == 1;
    assert (i + 2) / 3 == i / 3 && (i + 2) % 3 == 2;
  }

  /** The partners inside the pair that starts at card i. */
  lemma PartnersOfPair(t: nat, picks: seq<bool>, i: nat)
    requires 2 <= t && EnoughPicks(t, picks) && TripleEnd(t) <= i && (i - TripleEnd(t)) % 2 == 0 && i + 2 <= t
    ensures Partner(t, picks, i) == i + 1 && Partner(t, picks, i + 1) == i
  {
    assert (i + 1 - TripleEnd(t)) % 2 == 1;
  }

  /** The triple or pair holding card j: its first card and its length. */
  lemma BlockOf(t: nat, j: nat) returns (first: nat, size: nat)
    requires 2 <= t && j < t
    ensures first <= j < first + size && first + size <= t
    ensures j < TripleEnd(t) ==> size == 3 && first % 3 == 0 && first + 3 <= TripleEnd(t)
    ensures j >= TripleEnd(t) ==> size == 2 && TripleEnd(t) <= first && (first - TripleEnd(t)) % 2 == 0
    ensures forall x :: first <= x < first + size ==> Block(t, x) == Block(t, j)
    ensures forall x :: 0 <= x < t && Block(t, x) == Block(t, j) ==> first <= x < first + size
  {
    TripleEndFacts(t);
    var n := TripleEnd(t);
    if j < n {
      first, size := j - j % 3, 3;
      assert Block(t, j) == first / 3;
    } else {
      first, size := j - (j - n) % 2, 2;
      assert Block(t, j) == n / 3 + (first - n) / 2;
    }
  }

  lemma PartnerInRange(t: nat, picks: seq<bool>, j: nat)
    requires j < t && EnoughPicks(t, picks)
    ensures Partner(t, picks, j) < t
    ensures t >= 2 ==> Partner(t, picks, j) != j
  {
    if t >= 2 {
      var first, size := BlockOf(t, j);
      PartnerInBlock(t, picks, j, first, size);
    }
  }

  /** The partner of a card lies in the card's own triple or pair. */
  function Block(t: nat, j: nat): int
  {
    var n := TripleEnd(t);
    if j < n then j / 3 else n / 3 + (j - n) / 2
  }

  /** Inside a block the partners form a cycle through every card of it. */
  lemma PartnerInBlock(t: nat, picks: seq<bool>, j: nat, first: nat, size: nat)
    requires 2 <= t && j < t && EnoughPicks(t, picks)
    requires first <= j < first + size && first + size <= t
    requires j < TripleEnd(t) ==> size == 3 && first % 3 == 0 && first + 3 <= TripleEnd(t)
    requires j >= TripleEnd(t) ==> size == 2 && TripleEnd(t) <= first && (first - TripleEnd(t)) % 2 == 0
    ensures first <= Partner(t, picks, j) < first + size && Partner(t, picks, j) != j
  {
    if size == 3 {
      PartnersOfTriple(t, picks, first);
    } else {
      PartnersOfPair(t, picks, first);
    }
  }

  lemma PartnerSameBlock(t: nat, picks: seq<bool>, j: nat)
    requires 2 <= t && j < t && EnoughPicks(t, picks)
    ensures Block(t, Partner(t, picks, j)) == Block(t, j)
  {
    var first, size := BlockOf(t, j);
    PartnerInBlock(t, picks, j, first, size);
  }

  lemma PartnerInjective(t: nat, picks: seq<bool>, i: nat, j: nat)
    requires i < t && j < t && i != j && EnoughPicks(t, picks)
    ensures Partner(t, picks, i) != Partner(t, picks, j)
  {
    if t >= 2 {
      var first, size := BlockOf(t, i);
      PartnerInBlock(t, picks, i, first, size);
      if first <= j < first + size {
        if size == 3 {
          PartnersOfTriple(t, picks, first);
        } else {
          PartnersOfPair(t, picks, first);
        }
      } else {
        PartnerSameBlock(t, picks, j);
        assert Block(t, Partner(t, picks, i)) == Block(t, i);
      }
    }
  }

  /** The number of triples and pairs. */
  function BlockCount(t: nat): nat
    requires t >= 2
  {
    TripleEnd(t) / 3 + (t - TripleEnd(t)) / 2
  }

  lemma BlockBelowCount(t: nat, j: nat)
    requires 2 <= t && j < t
    ensures 0 <= Block(t, j) < BlockCount(t)
  {
  }

  /** Two different cards of one block: one is the partner of the other. */
  lemma SameBlockLinked(t: nat, picks: seq<bool>, a: nat, b: nat)
    requires 2 <= t && a < t && b < t && a != b && EnoughPicks(t, picks)
    requires Block(t, a) == Block(t, b)
    ensures Partner(t, picks, a) == b || Partner(t, picks, b) == a
  {
    var first, size := BlockOf(t, a);
    if size == 3 {
      PartnersOfTriple(t, picks, first);
    } else {
      PartnersOfPair(t, picks, first);
    }
  }

  /** The first i entries of `partner` are the partners of their cards. */
  ghost predicate PartnersUpTo(partner: seq<nat>, t: nat, picks: seq<bool>, i: nat)
    requires EnoughPicks(t, picks)
  {
    |partner| == t && i <= t && forall j :: 0 <= j < i ==> partner[j] == Partner(t, picks, j)
  }

  /** Writing the rotated triple number b, which starts at card i = 3b. */
  lemma TripleWritten(partner: seq<nat>, t: nat, picks: seq<bool>, i: nat, b: nat)
    requires 2 <= t && EnoughPicks(t, picks) && i == 3 * b && i + 3 <= TripleEnd(t)
    requires PartnersUpTo(partner, t, picks, i)
    ensures b == i / 3 < |picks|
    ensures PartnersUpTo(if picks[b] then partner[i := i + 1][i + 1 := i + 2][i + 2 := i]
      else partner[i := i + 2][i + 1 := i][i + 2 := i + 1], t, picks, i + 3)
  {
    PartnersOfTriple(t, picks, i);
  }

  /** Writing the swapped pair that starts at card i. */
  lemma PairWritten(partner: seq<nat>, t: nat, picks: seq<bool>, i: nat)
    requires 2 <= t && EnoughPicks(t, picks) && TripleEnd(t) <= i && (i - TripleEnd(t)) % 2 == 0 && i + 2 <= t
    requires PartnersUpTo(partner, t, picks, i)
    ensures PartnersUpTo(partner[i := i + 1][i + 1 := i], t, picks, i + 2)
  {
    PartnersOfPair(t, picks, i);
  }

  /** Lines 54-61: the partner values written into permutation_2, a triple or
      a pair at a time. */
  method PartnerValues(t: nat, picks: seq<bool>) returns (partner: seq<nat>)
    requires t >= 1 && EnoughPicks(t, picks)
    ensures |partner| == t && forall j :: 0 <= j < t ==> partner[j] == Partner(t, picks, j)
  {
    partner := seq(t, _ => 0);
    if t == 1 {
      partner := [0];
    } else {
      var n := TripleEnd(t);
      TripleEndFacts(t);
      ghost var triples := n / 3;
      assert n == 3 * triples;
      var i := 0;
      ghost var b := 0;
      while i < n
        invariant i == 3 * b && b <= triples && PartnersUpTo(partner, t, picks, i)
      {
        TripleWritten(partner, t, picks, i, b);
        if picks[i / 3] {
          partner := partner[i := i + 1][i + 1 := i + 2][i + 2 := i];
        } else {
          partner := partner[i := i + 2][i + 1 := i][i + 2 := i + 1];
        }
        i, b := i + 3, b + 1;
      }
      while i < t
        invariant n <= i <= t && (i - n) % 2 == 0 && PartnersUpTo(partner, t, picks, i)
      {
        PairWritten(partner, t, picks, i);
        partner := partner[i := i + 1][i + 1 := i];
        i := i + 2;
      }
    }
  }

  /** get_permutations: the identity and its partner, both rearranged by the
      same shuffle `order` (position k of the shuffled pairs holds the pair of
      card order[k]). */
  method GetPermutations(t: nat, picks: seq<bool>, order: seq<nat>) returns (first: seq<nat>, second: seq<nat>)
    requires t >= 1 && IsPermutation(order, t) && EnoughPicks(t, picks)
    ensures first == order
    ensures |second| == t && forall k :: 0 <= k < t ==> second[k] == Partner(t, picks, order[k])
    ensures IsPermutation(first, t) && IsPermutation(second, t)
    ensures t >= 2 ==> forall k :: 0 <= k < t ==> first[k] != second[k]
    ensures t == 1 ==> first == [0] && second == [0]
  {
    var partner := PartnerValues(t, picks);
    first := order;
    second := seq(t, k requires 0 <= k < t => partner[order[k]]);
    ShuffledSeeds(t, picks, order, second);
  }

  lemma ShuffledSeeds(t: nat, picks: seq<bool>, order: seq<nat>, second: seq<nat>)
    requires t >= 1 && IsPermutation(order, t) && EnoughPicks(t, picks)
    requires |second| == t && forall k :: 0 <= k < t ==> second[k] == Partner(t, picks, order[k])
    ensures IsPermutation(second, t)
    ensures t >= 2 ==> forall k :: 0 <= k < t ==> order[k] != second[k]
    ensures t == 1 ==> order == [0] && second == [0]
  {
    forall k | 0 <= k < t ensures second[k] < t && (t >= 2 ==> second[k] != order[k]) {
      PartnerInRange(t, picks, order[k]);
    }
    forall k, l | 0 <= k < l < t ensures second[k] != second[l] {
      PartnerInjective(t, picks, order[k], order[l]);
    }
    if t == 1 {
      assert order[0] < 1;
    }
  }

  /** The design of the seeds: with t <= 3(p - 1), any p distinct cards hold
      two cards of one triple or pair, so the seeds share a value on every
      probe and the engine never has to give one up. */
  lemma SeedsAlwaysShareAValue(t: nat, picks: seq<bool>, order: seq<nat>, second: seq<nat>, cards: seq<nat>)
    requires t >= 2 && IsPermutation(order, t) && EnoughPicks(t, picks)
    requires |second| == t && forall k :: 0 <= k < t ==> second[k] == Partner(t, picks, order[k])
    requires Below(cards, t) && Distinct(cards) && t <= 3 * (|cards| - 1)
    ensures CommonValues([order, second], cards) != {}
  {
    var blocks := CardBlocks(t, order, cards);
    FewerBlocks(t, |cards|);
    var i, j := Pigeonhole(blocks, BlockCount(t));
    SharedInBlock(t, picks, order, second, cards, i, j);
  }

  /** With t <= 3(p - 1) there are fewer blocks than p. */
  lemma FewerBlocks(t: nat, p: nat)
    requires 2 <= t <= 3 * (p - 1)
    ensures BlockCount(t) < p
  {
    var q := t / 3;
    assert t == 3 * q + t % 3;
  }

  /** The block of the card each probed position shows in `order`. */
  function CardBlocks(t: nat, order: seq<nat>, cards: seq<nat>): (blocks: seq<nat>)
    requires t >= 2 && IsPermutation(order, t) && Below(cards, t)
    ensures |blocks| == |cards| && Below(blocks, BlockCount(t))
    ensures forall i :: 0 <= i < |cards| ==> blocks[i] == Block(t, order[cards[i]])
  {
    seq(|cards|, i requires 0 <= i < |cards| =>
      BlockBelowCount(t, order[cards[i]]);
      Block(t, order[cards[i]]) as nat)
  }

  /** Two probed positions whose cards in `order` share a block give a value
      both seeds show on the probe. */
  lemma SharedInBlock(t: nat, picks: seq<bool>, order: seq<nat>, second: seq<nat>, cards: seq<nat>, i: nat, j: nat)
    requires t >= 2 && IsPermutation(order, t) && EnoughPicks(t, picks)
    requires |second| == t && forall k :: 0 <= k < t ==> second[k] == Partner(t, picks, order[k])
    requires Below(cards, t) && Distinct(cards) && i < j < |cards|
    requires Block(t, order[cards[i]]) == Block(t, order[cards[j]])
    ensures CommonValues([order, second], cards) != {}
  {
    var a, b := order[cards[i]], order[cards[j]];
    SameBlockLinked(t, picks, a, b);
    if Partner(t, picks, a) == b {
      assert Shows(order, cards, b) && Shows(second, cards, b) by {
        assert order[cards[j]] == b && second[cards[i]] == b;
      }
      assert b in CommonValues([order, second], cards);
    } else {
      assert Shows(order, cards, a) && Shows(second, cards, a) by {
        assert order[cards[i]] == a && second[cards[j]] == a;
      }
      assert a in CommonValues([order, second], cards);
    }
  }

  /** Fewer permutations share at least the values that more of them share. */
  lemma CommonOfPrefix(perms: seq<seq<nat>>, k: nat, cards: seq<nat>)
    requires 1 <= k <= |perms|
    ensures CommonValues(perms, cards) <= CommonValues(perms[..k], cards)
  {
    assert forall q :: q in perms[..k] ==> q in perms;
  }

  /** Every probe of p distinct increasing cards has a value that all of
      `perms` show on it. */
  ghost predicate SharesOnAllProbes(perms: seq<seq<nat>>, t: nat, p: nat)
  {
    perms != [] && forall c :: IsCombination(c, 0, t, p) ==> CommonValues(perms, c) != {}
  }

  lemma SeedsShareOnAllProbes(t: nat, p: nat, picks: seq<bool>, order: seq<nat>, second: seq<nat>)
    requires 2 <= t <= 3 * (p - 1) && IsPermutation(order, t) && EnoughPicks(t, picks)
    requires |second| == t && forall k :: 0 <= k < t ==> second[k] == Partner(t, picks, order[k])
    ensures SharesOnAllProbes([order, second], t, p)
  {
    forall c | IsCombination(c, 0, t, p) ensures CommonValues([order, second], c) != {} {
      SeedsAlwaysShareAValue(t, picks, order, second, c);
    }
  }

  /** The values every permutation of `perms` shows on the probe. */
  function CommonValues(perms: seq<seq<nat>>, cards: seq<nat>): (vs: set<nat>)
    requires perms != []
    ensures forall v :: v in vs <==> forall q :: q in perms ==> Shows(q, cards, v)
  {
    if |perms| == 1 then ValuesOn(perms[0], cards)
    else
      var pre := perms[..|perms| - 1];
      assert forall q :: q in perms <==> q in pre || q == perms[|perms| - 1];
      CommonValues(pre, cards) * ValuesOn(perms[|perms| - 1], cards)
  }

  class Engine {
    const nbCards: nat
    var permutations: seq<seq<nat>>

    /** At least one permutation of the t cards remains. */
    ghost predicate Valid()
      reads this
    {
      1 <= |permutations| && forall q :: q in permutations ==> IsPermutation(q, nbCards)
    }

    constructor (nbCards: nat, picks: seq<bool>, order: seq<nat>)
      requires nbCards >= 1 && IsPermutation(order, nbCards) && EnoughPicks(nbCards, picks)
      ensures this.nbCards == nbCards && Valid() && |permutations| == 2
      ensures permutations[0] == order && |permutations[1]| == nbCards
      ensures forall k :: 0 <= k < nbCards ==> permutations[1][k] == Partner(nbCards, picks, order[k])
    {
      this.nbCards := nbCards;
      var first, second := GetPermutations(nbCards, picks, order);
      permutations := [first, second];
    }

    /** get_value: drop the last permutation while the remaining ones share no
        value on the probe, then answer one of the shared values. */
    method GetValue(cards: seq<nat>) returns (value: nat)
      requires Valid() && cards != [] && Below(cards, nbCards)
      modifies this
      ensures Valid()
      ensures |permutations| <= |old(permutations)| && permutations == old(permutations)[..|permutations|]
      ensures forall q :: q in permutations ==> Shows(q, cards, value)
      ensures |permutations| < |old(permutations)| ==>
        CommonValues(old(permutations)[..|permutations| + 1], cards) == {}
      ensures CommonValues(old(permutations), cards) != {} ==> permutations == old(permutations)
    {
      while true
        invariant Valid()
        invariant |permutations| <= |old(permutations)| && permutations == old(permutations)[..|permutations|]
        invariant |permutations| < |old(permutations)| ==>
          CommonValues(old(permutations)[..|permutations| + 1], cards) == {}
        decreases |permutations|
      {
        var values := SharedValues(permutations, cards);
        assert IsPermutation(permutations[0], nbCards);
        assert |permutations| == 1 ==> values == ValuesOn(permutations[0], cards);
        if values == {} {
          assert old(permutations)[..|permutations|] == permutations;
          permutations := permutations[..|permutations| - 1];
          continue;
        }
        if forall v :: v !in values {
          assert false;
        }
        value :| value in values;
        if |permutations| < |old(permutations)| {
          CommonOfPrefix(old(permutations), |permutations| + 1, cards);
        }
        return;
      }
    }

    /** verify: the first remaining permutation that contradicts the guess,
        or the first permutation when they all confirm it. */
    function Verify(card: nat, value: nat): (answer: seq<nat>)
      reads this
      requires Valid() && card < nbCards
      ensures answer in permutations && card < |answer|
      ensures answer[card] == value <==> forall q :: q in permutations ==> q[card] == value
      ensures answer[card] == value ==> answer == permutations[0]
    {
      var i := FirstDisagreeing(permutations, card, value);
      if i < |permutations| then permutations[i] else permutations[0]
    }
  }

  /** Lines 71-73: the values on the probe shared by every permutation, one
      intersection per permutation after the first. */
  method SharedValues(perms: seq<seq<nat>>, cards: seq<nat>) returns (values: set<nat>)
    requires perms != []
    ensures values == CommonValues(perms, cards)
  {
    values := ValuesOn(perms[0], cards);
    for i := 1 to |perms|
      invariant values == CommonValues(perms[..i], cards)
    {
      assert perms[..i + 1][..i] == perms[..i];
      values := values * ValuesOn(perms[i], cards);
    }
    assert perms[..|perms|] == perms;
  }

  /** The index of the first permutation whose value at `card` is not `value`,
      or |perms| when there is none. */
  function FirstDisagreeing(perms: seq<seq<nat>>, card: nat, value: nat): (i: nat)
    requires forall q :: q in perms ==> card < |q|
    ensures i <= |perms|
    ensures forall j :: 0 <= j < i ==> perms[j][card] == value
    ensures i < |perms| ==> perms[i][card] != value
  {
    if perms == [] then 0
    else if perms[0][card] != value then 0
    else 1 + FirstDisagreeing(perms[1..], card, value)
  }
}
