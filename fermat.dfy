/** "Et si Fermat avait eu tort": three series that satisfy a third-order
    recurrence give near misses a^3 + b^3 == c^3 + d, with d alternating
    between 1 and -1. */
module FermatSeries {

  /** Term i of gen_series(*start): the seeds first, then each term is
      82 times the sum of the previous two minus the one before them. */
  function Series(start: seq<int>, i: nat): int
    requires |start| >= 3
  {
    if i < |start| then start[i]
    else 82 * (Series(start, i - 1) + Series(start, i - 2)) - Series(start, i - 3)
  }

  /** After the seeds, `n2, n1, n0 = start[-3:]`: only the last three seeds
      drive the recurrence, so from the third seed from the end on the
      series is the one seeded with those three. */
  lemma {:induction false} SeriesLastThree(start: seq<int>, i: nat)
    requires |start| >= 3 && i + 3 >= |start|
    ensures Series(start, i) == Series(start[|start| - 3..], i + 3 - |start|)
    decreases i
  {
    if i >= |start| {
      SeriesLastThree(start, i - 1);
      SeriesLastThree(start, i - 2);
      SeriesLastThree(start, i - 3);
    }
  }

  /** The first `count` values of gen_series(*start), computed as the
      generator does: the seeds, then the three last values rotated. */
  method Prefix(start: seq<int>, count: nat) returns (terms: seq<int>)
    requires |start| >= 3
    ensures |terms| == count
    ensures forall i :: 0 <= i < count ==> terms[i] == Series(start, i)
  {
    if count <= |start| {
      return start[..count];
    }
    terms := start;
    var n2, n1, n0 := start[|start| - 3], start[|start| - 2], start[|start| - 1];
    while |terms| < count
      invariant |start| <= |terms| <= count
      invariant forall i :: 0 <= i < |terms| ==> terms[i] == Series(start, i)
      invariant n0 == Series(start, |terms| - 1)
      invariant n1 == Series(start, |terms| - 2)
      invariant n2 == Series(start, |terms| - 3)
      decreases count - |terms|
    {
      n0, n1, n2 := 82 * (n0 + n1) - n2, n0, n1;
      terms := terms + [n0];
    }
  }

  /** The series seeded (1, -1, 1) alternates 1, -1, 1, -1, ... */
  lemma {:induction false} Alternates(i: nat)
    ensures Series([1, -1, 1], i) == if i % 2 == 0 then 1 else -1
  {
    if i >= 3 {
      Alternates(i - 1);
      Alternates(i - 2);
      Alternates(i - 3);
    }
  }

  const A: seq<int> := [1, 135, 11161]
  const B: seq<int> := [2, 138, 11468]
  const C: seq<int> := [2, 172, 14258]
  const D: seq<int> := [1, -1, 1]

  function Cube(x: int): int
  {
    x * x * x
  }

  /** a^3 + b^3 == c^3 + d. */
  predicate NearMiss(a: int, b: int, c: int, d: int)
  {
    Cube(a) + Cube(b) == Cube(c) + d
  }

  /** The equation main asserts at index i. */
  predicate Equation(i: nat)
  {
    NearMiss(Series(A, i), Series(B, i), Series(C, i), Series(D, i))
  }

  /** main(nb_equations): checks the equation on the first `count` indices
      and reports whether the assertion would hold on all of them. */
  method CheckEquations(count: nat) returns (ok: bool)
    ensures ok <==> forall i :: 0 <= i < count ==> Equation(i)
  {
    var a := Prefix(A, count);
    var b := Prefix(B, count);
    var c := Prefix(C, count);
    var d := Prefix(D, count);
    var k := 0;
    while k < count
      invariant k <= count
      invariant forall i :: 0 <= i < k ==> Equation(i)
    {
      if !NearMiss(a[k], b[k], c[k], d[k]) {
        assert !Equation(k);
        return false;
      }
      k := k + 1;
    }
    return true;
  }

  /** The first eight equations hold: 1 + 8 == 8 + 1,
      135^3 + 138^3 == 172^3 - 1, 11161^3 + 11468^3 == 14258^3 + 1, ... */
  lemma FirstEquations()
    ensures forall i :: 0 <= i < 8 ==> Equation(i)
  {
    Alternates(3);
    Alternates(4);
    Alternates(5);
    Alternates(6);
    Alternates(7);
    assert Series(A, 3) == 926271 && Series(B, 3) == 951690 && Series(C, 3) == 1183258;
    assert Series(A, 4) == 76869289 && Series(B, 4) == 78978818 && Series(C, 4) == 98196140;
    assert Series(A, 5) == 6379224759 && Series(B, 5) == 6554290188 && Series(C, 5) == 8149096378;
    assert Series(A, 6) == 529398785665 && Series(B, 6) == 543927106802 && Series(C, 6) == 676276803218;
    assert Series(A, 7) == 43933719985479 && Series(B, 7) == 45139395574362 && Series(C, 7) == 56122825570732;
  }
}
