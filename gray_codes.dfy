/** gen_gray_codes of "Combien de dispositions à partir de n cubes": the
    reflected binary Gray code on `length` positions. Stage d follows the
    codes built so far with the same codes in reverse order, position d set
    to 1. */
module GrayCodes {
  import opened Numbers

  function Zeros(length: nat): (r: seq<int>)
    ensures |r| == length && forall i :: 0 <= i < length ==> r[i] == 0
  {
    seq(length, i => 0)
  }

  /** One stage: the codes, then the codes in reverse order with position d
      set to 1. */
  function Reflect(codes: seq<seq<int>>, d: nat): (r: seq<seq<int>>)
    requires forall i :: 0 <= i < |codes| ==> d < |codes[i]|
    ensures |r| == 2 * |codes| && r[..|codes|] == codes
    ensures forall i :: |codes| <= i < 2 * |codes| ==> r[i] == codes[2 * |codes| - 1 - i][d := 1]
  {
    codes + seq(|codes|, i requires 0 <= i < |codes| => codes[|codes| - 1 - i][d := 1])
  }

  /** The codes after the first `stages` stages. */
  function Gray(length: nat, stages: nat): (r: seq<seq<int>>)
    requires stages <= length
    ensures r != [] && forall i :: 0 <= i < |r| ==> |r[i]| == length
  {
    if stages == 0 then [Zeros(length)]
    else Reflect(Gray(length, stages - 1), stages - 1)
  }

  /** There are 2 ** stages codes. */
  lemma {:induction false} GrayCount(length: nat, stages: nat)
    requires stages <= length
    ensures |Gray(length, stages)| == Pow(2, stages)
  {
    if stages > 0 {
      GrayCount(length, stages - 1);
    }
  }

  /** gen_gray_codes(length), its yields collected: the first code, then
      every code appended to `codes`. reversed(codes) walks down from the
      last index it started at, so it never meets the codes appended while it
      runs. */
  method GenGrayCodes(length: nat) returns (codes: seq<seq<int>>)
    ensures codes == Gray(length, length)
  {
    codes := [Zeros(length)];
    for n := 0 to length
      invariant codes == Gray(length, n)
    {
      ghost var before := codes;
      var m := |codes|;
      for j := 0 to m
        invariant |codes| == m + j && codes[..m] == before
        invariant forall i :: m <= i < m + j ==> codes[i] == before[2 * m - 1 - i][n := 1]
      {
        var code := codes[m - 1 - j];
        var newCode := code[..n] + [1] + code[n + 1..];
        assert newCode == code[n := 1];
        codes := codes + [newCode];
      }
      assert codes == Reflect(before, n);
    }
  }

  predicate Binary(code: seq<int>)
  {
    forall i :: 0 <= i < |code| ==> code[i] == 0 || code[i] == 1
  }

  /** Every position from d on holds 0. */
  predicate ZeroFrom(code: seq<int>, d: nat)
  {
    forall e :: d <= e < |code| ==> code[e] == 0
  }

  /** Every code is made of 0s and 1s, and the positions no stage has
      reached yet are 0. */
  lemma {:induction false} GrayShape(length: nat, stages: nat)
    requires stages <= length
    ensures forall i :: 0 <= i < |Gray(length, stages)| ==>
      Binary(Gray(length, stages)[i]) && ZeroFrom(Gray(length, stages)[i], stages)
  {
    if stages > 0 {
      GrayShape(length, stages - 1);
    }
  }

  /** The first code is all zeros. */
  lemma {:induction false} GrayFirst(length: nat, stages: nat)
    requires stages <= length
    ensures Gray(length, stages)[0] == Zeros(length)
  {
    if stages > 0 {
      GrayFirst(length, stages - 1);
      var g := Gray(length, stages - 1);
      assert Gray(length, stages)[..|g|] == g;
    }
  }

  /** b is a with exactly one position e switched between 0 and 1. */
  predicate OneApart(a: seq<int>, b: seq<int>)
  {
    |a| == |b| && exists e :: 0 <= e < |a| && b == a[e := 1 - a[e]]
  }

  /** Setting a position where both codes hold 0 keeps them one apart. */
  lemma SetKeepsOneApart(a: seq<int>, b: seq<int>, d: nat)
    requires OneApart(a, b) && Binary(a) && d < |a| && a[d] == 0 && b[d] == 0
    ensures OneApart(b[d := 1], a[d := 1])
  {
    var e :| 0 <= e < |a| && b == a[e := 1 - a[e]];
    assert e != d;
    assert a[d := 1] == b[d := 1][e := 1 - b[d := 1][e]];
  }

  /** The codes of one stage: each of length above d, made of 0s and 1s,
      with 0 at position d. */
  predicate Unset(g: seq<seq<int>>, d: nat)
  {
    forall i :: 0 <= i < |g| ==> d < |g[i]| && Binary(g[i]) && g[i][d] == 0
  }

  lemma ReflectAdjacent(g: seq<seq<int>>, s: nat)
    requires Unset(g, s) && g != []
    requires forall i :: 0 < i < |g| ==> OneApart(g[i - 1], g[i])
    ensures forall i :: 0 < i < 2 * |g| ==> OneApart(Reflect(g, s)[i - 1], Reflect(g, s)[i])
  {
    var r := Reflect(g, s);
    var m := |g|;
    forall i | 0 < i < 2 * m
      ensures OneApart(r[i - 1], r[i])
    {
      if i < m {
        assert r[i - 1] == r[..m][i - 1] && r[i] == r[..m][i];
      } else if i == m {
        assert r[i - 1] == r[..m][m - 1] == g[m - 1];
        assert r[i] == g[m - 1][s := 1 - g[m - 1][s]];
      } else {
        ReflectedAdjacent(g, s, i);
      }
    }
  }

  /** ReflectAdjacent, for two neighbours in the reflected half. */
  lemma ReflectedAdjacent(g: seq<seq<int>>, s: nat, i: nat)
    requires Unset(g, s) && |g| < i < 2 * |g|
    requires OneApart(g[2 * |g| - 1 - i], g[2 * |g| - i])
    ensures OneApart(Reflect(g, s)[i - 1], Reflect(g, s)[i])
  {
    var a, b := g[2 * |g| - 1 - i], g[2 * |g| - i];
    SetKeepsOneApart(a, b, s);
  }

  /** Consecutive codes differ in exactly one position. */
  lemma {:induction false} GrayAdjacent(length: nat, stages: nat)
    requires stages <= length
    ensures forall i :: 0 < i < |Gray(length, stages)| ==>
      OneApart(Gray(length, stages)[i - 1], Gray(length, stages)[i])
  {
    if stages > 0 {
      var s := stages - 1;
      GrayAdjacent(length, s);
      GrayShape(length, s);
      ReflectAdjacent(Gray(length, s), s);
    }
  }

  /** Setting one position where two codes hold 0 keeps them apart. */
  lemma SetKeepsDistinct(a: seq<int>, b: seq<int>, d: nat)
    requires d < |a| && d < |b| && a[d] == 0 && b[d] == 0 && a != b
    ensures a[d := 1] != b[d := 1]
  {
    if |a| == |b| {
      var e :| 0 <= e < |a| && a[e] != b[e];
      assert a[d := 1][e] != b[d := 1][e];
    }
  }

  lemma ReflectDistinct(g: seq<seq<int>>, s: nat)
    requires Unset(g, s)
    requires forall i, j :: 0 <= i < j < |g| ==> g[i] != g[j]
    ensures forall i, j :: 0 <= i < j < 2 * |g| ==> Reflect(g, s)[i] != Reflect(g, s)[j]
  {
    var r := Reflect(g, s);
    var m := |g|;
    forall i, j | 0 <= i < j < 2 * m
      ensures r[i] != r[j]
    {
      if j < m {
        assert r[i] == r[..m][i] && r[j] == r[..m][j];
      } else if i < m {
        assert r[i] == r[..m][i];
        assert r[i][s] == 0 && r[j][s] == 1;
      } else {
        SetKeepsDistinct(g[2 * m - 1 - j], g[2 * m - 1 - i], s);
      }
    }
  }

  /** No code occurs twice. */
  lemma {:induction false} GrayDistinct(length: nat, stages: nat)
    requires stages <= length
    ensures forall i, j :: 0 <= i < j < |Gray(length, stages)| ==>
      Gray(length, stages)[i] != Gray(length, stages)[j]
  {
    if stages > 0 {
      var s := stages - 1;
      GrayDistinct(length, s);
      GrayShape(length, s);
      ReflectDistinct(Gray(length, s), s);
    }
  }

  /** The number of 1s in a code. */
  function Weight(code: seq<int>): nat
  {
    if code == [] then 0 else (if code[0] == 1 then 1 else 0) + Weight(code[1..])
  }

  lemma {:induction false} WeightSet(code: seq<int>, d: nat)
    requires d < |code| && code[d] == 0
    ensures Weight(code[d := 1]) == Weight(code) + 1
  {
    if d > 0 {
      WeightSet(code[1..], d - 1);
      assert code[d := 1][1..] == code[1..][d - 1 := 1];
    } else {
      assert code[d := 1][1..] == code[1..];
    }
  }

  lemma ReflectParity(g: seq<seq<int>>, s: nat)
    requires Unset(g, s)
    requires forall i :: 0 <= i < |g| ==> Weight(g[i]) % 2 == i % 2
    ensures forall i :: 0 <= i < 2 * |g| ==> Weight(Reflect(g, s)[i]) % 2 == i % 2
  {
    var r := Reflect(g, s);
    var m := |g|;
    forall i | 0 <= i < 2 * m
      ensures Weight(r[i]) % 2 == i % 2
    {
      if i < m {
        assert r[i] == r[..m][i];
      } else {
        WeightSet(g[2 * m - 1 - i], s);
      }
    }
  }

  /** The code at index i has an odd number of 1s exactly when i is odd. */
  lemma {:induction false} GrayParity(length: nat, stages: nat)
    requires stages <= length
    ensures forall i :: 0 <= i < |Gray(length, stages)| ==> Weight(Gray(length, stages)[i]) % 2 == i % 2
  {
    if stages == 0 {
      ZerosWeight(length);
    } else {
      var s := stages - 1;
      GrayParity(length, s);
      GrayShape(length, s);
      ReflectParity(Gray(length, s), s);
    }
  }

  lemma {:induction false} ZerosWeight(length: nat)
    ensures Weight(Zeros(length)) == 0
  {
    if length > 0 {
      ZerosWeight(length - 1);
      assert Zeros(length)[1..] == Zeros(length - 1);
    }
  }
}
