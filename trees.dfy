/** "Arbres colorés": trees planted in groups RR VVV RRR VVVV RRRR ...,
    the groups alternating red and green. Group 1 holds two trees and
    group g holds g / 2 + 2, so each size after the first appears twice.
    solve(n) finds the colour, the group and the position of tree n. */
module ColouredTrees {

  /** The number of trees in group g. */
  function Size(g: nat): (r: nat)
    requires g >= 1
    ensures r >= 2
  {
    g / 2 + 2
  }

  /** The number of the first tree of group g. */
  function First(g: nat): (r: nat)
    requires g >= 1
    ensures r >= 1
  {
    if g == 1 then 1 else First(g - 1) + Size(g - 1)
  }

  /** Odd groups are red, even groups green. */
  function Colour(g: nat): char
  {
    if g % 2 == 0 then 'V' else 'R'
  }

  /** Tree n is at position p of group g. */
  predicate At(n: int, g: nat, p: int)
  {
    g >= 1 && 1 <= p <= Size(g) && n == First(g) + p - 1
  }

  /** Two groups further, one pair of equal-sized groups has been passed. */
  lemma FirstPair(step: nat)
    requires step >= 3
    ensures Size(2 * (step - 3) + 2) == step && Size(2 * (step - 3) + 3) == step
    ensures First(2 * (step - 2) + 2) == First(2 * (step - 3) + 2) + 2 * step
  {
    var g := 2 * (step - 3) + 2;
    assert First(g + 2) == First(g + 1) + Size(g + 1);
    assert First(g + 1) == First(g) + Size(g);
  }

  /** solve(n). For n < 3 the source answers ('R', 1, n) whatever n is;
      from 3 on it walks two groups at a time. */
  method Solve(n: int) returns (colour: char, group: nat, position: int)
    ensures n < 3 ==> colour == 'R' && group == 1 && position == n
    ensures n >= 1 ==> At(n, group, position)
    ensures n >= 1 ==> colour == Colour(group)
  {
    if n < 3 {
      return 'R', 1, n;
    }
    var step: nat := 3;
    var rest: int := n - 3;
    FirstPair(3);
    while 2 * step <= rest
      invariant step >= 3 && rest >= 0
      invariant n == First(2 * (step - 3) + 2) + rest
      decreases rest
    {
      FirstPair(step);
      rest := rest - 2 * step;
      step := step + 1;
    }
    FirstPair(step);
    var g := 2 * (step - 3) + 2;
    assert First(g + 1) == First(g) + step;
    colour := if rest < step then 'V' else 'R';
    group := (step - 3) * 2 + (if rest < step then 2 else 3);
    position := 1 + (if rest < step then rest else rest - step);
  }

  /** Later groups start after the whole of earlier ones. */
  lemma {:induction false} FirstGrows(g: nat, h: nat)
    requires 1 <= g < h
    ensures First(h) >= First(g) + Size(g)
    decreases h
  {
    if h > g + 1 {
      FirstGrows(g, h - 1);
    }
  }

  /** Every tree has exactly one place: the answer of solve is determined
      by the pattern. */
  lemma PlaceUnique(n: int, g: nat, p: int, g': nat, p': int)
    requires At(n, g, p) && At(n, g', p')
    ensures g == g' && p == p'
  {
    if g < g' {
      FirstGrows(g, g');
    } else if g' < g {
      FirstGrows(g', g);
    }
  }

  /** The tree after a given one is the next in its group, or the first
      of the next group when the group is full. */
  lemma NextTree(n: int, g: nat, p: int)
    requires At(n, g, p)
    ensures p < Size(g) ==> At(n + 1, g, p + 1)
    ensures p == Size(g) ==> At(n + 1, g + 1, 1)
  {
  }

  /** The pattern written above solve: trees 1 to 26 fall in groups of
      sizes 2, 3, 3, 4, 4, 5, 5. */
  lemma Pattern()
    ensures First(2) == 3 && First(3) == 6 && First(4) == 9 && First(5) == 13
    ensures First(6) == 17 && First(7) == 22 && Size(7) == 5
  {
  }
}
