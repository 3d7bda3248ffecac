/** The solids of "Combien de dispositions à partir de n cubes": a cube is
    the tuple of its integer coordinates, a solid the cubes it is made of.
    gen_translations moves a cube one step, move_to_origin slides a list
    of cubes against the coordinate planes, gen_rotations turns a tuple by
    every signed permutation of even sign, and a Solid keeps, of all the
    rotated and slid copies of its cubes, the least sorted one. */
module Solids {
  import opened Numbers
  import opened Options
  import GrayCodes
  import SteinhausJohnsonTrotter

  type Cube = seq<int>

  // ---------------------------------------------------------------------
  // gen_translations.

  /** b is a moved one step along coordinate d and nowhere else. */
  predicate StepAt(a: Cube, b: Cube, d: int)
  {
    |a| == |b| && 0 <= d < |a| && (b[d] == a[d] - 1 || b[d] == a[d] + 1) &&
    forall e :: 0 <= e < |a| && e != d ==> b[e] == a[e]
  }

  /** b differs from a by one in exactly one coordinate. */
  predicate Adjacent(a: Cube, b: Cube)
  {
    exists d :: 0 <= d < |a| && StepAt(a, b, d)
  }

  /** The yields of gen_translations(cube) from coordinate d on: the cube
      moved by -1, then by +1, along each coordinate in turn. */
  function TranslationsFrom(cube: Cube, d: nat): seq<Cube>
    requires d <= |cube|
    decreases |cube| - d
  {
    if d == |cube| then []
    else [cube[d := cube[d] - 1], cube[d := cube[d] + 1]] + TranslationsFrom(cube, d + 1)
  }

  lemma {:induction false} TranslationsFromMembers(cube: Cube, d: nat, x: Cube)
    requires d <= |cube|
    decreases |cube| - d
    ensures |TranslationsFrom(cube, d)| == 2 * (|cube| - d)
    ensures x in TranslationsFrom(cube, d) <==> exists e :: d <= e && StepAt(cube, x, e)
  {
    if d < |cube| {
      TranslationsFromMembers(cube, d + 1, x);
      var down, up := cube[d := cube[d] - 1], cube[d := cube[d] + 1];
      assert StepAt(cube, down, d) && StepAt(cube, up, d);
      if StepAt(cube, x, d) {
        if x[d] == cube[d] - 1 {
          assert x == down;
        } else {
          assert x == up;
        }
      }
    }
  }

  /** gen_translations(cube): 2 * len(cube) cubes, exactly the cubes
      adjacent to it. */
  function Translations(cube: Cube): (r: seq<Cube>)
    ensures |r| == 2 * |cube|
    ensures forall x :: x in r <==> Adjacent(cube, x)
  {
    forall x
      ensures x in TranslationsFrom(cube, 0) <==> Adjacent(cube, x)
    {
      TranslationsFromMembers(cube, 0, x);
    }
    TranslationsFromMembers(cube, 0, cube);
    TranslationsFrom(cube, 0)
  }

  /** The yields of gen_translations are pairwise different. */
  lemma {:induction false} TranslationsDistinct(cube: Cube, d: nat)
    requires d <= |cube|
    decreases |cube| - d
    ensures forall i, j :: 0 <= i < j < |TranslationsFrom(cube, d)| ==>
      TranslationsFrom(cube, d)[i] != TranslationsFrom(cube, d)[j]
  {
    if d < |cube| {
      TranslationsDistinct(cube, d + 1);
      var t := TranslationsFrom(cube, d);
      var rest := TranslationsFrom(cube, d + 1);
      assert t == [cube[d := cube[d] - 1], cube[d := cube[d] + 1]] + rest;
      forall i, j | 0 <= i < j < |t|
        ensures t[i] != t[j]
      {
        if i < 2 {
          assert t[i][d] != cube[d];
          if j >= 2 {
            TranslationsFromMembers(cube, d + 1, t[j]);
            var e :| d + 1 <= e && StepAt(cube, t[j], e);
            assert t[j][d] == cube[d];
          } else {
            assert t[i][d] != t[j][d];
          }
        } else {
          assert t[i] == rest[i - 2] && t[j] == rest[j - 2];
        }
      }
    }
  }

  /** The neighbour relation is symmetric. */
  lemma AdjacentSymmetric(a: Cube, b: Cube)
    requires Adjacent(a, b)
    ensures Adjacent(b, a)
  {
    var d :| 0 <= d < |a| && StepAt(a, b, d);
    assert |b| == |a| && 0 <= d < |b|;
    assert forall e :: 0 <= e < |b| && e != d ==> a[e] == b[e];
    assert StepAt(b, a, d);
  }

  // ---------------------------------------------------------------------
  // move_to_origin.

  /** Every cube of the list has n coordinates. */
  predicate Dimension(cubes: seq<Cube>, n: nat)
  {
    forall i :: 0 <= i < |cubes| ==> |cubes[i]| == n
  }

  /** min(cube[d] for cube in cubes). */
  function Minimum(cubes: seq<Cube>, d: nat): (m: int)
    requires cubes != [] && forall i :: 0 <= i < |cubes| ==> d < |cubes[i]|
    ensures forall i :: 0 <= i < |cubes| ==> m <= cubes[i][d]
    ensures exists i :: 0 <= i < |cubes| && cubes[i][d] == m
  {
    if |cubes| == 1 then cubes[0][d]
    else
      var m := Minimum(cubes[1..], d);
      assert forall i :: 1 <= i < |cubes| ==> cubes[i] == cubes[1..][i - 1];
      if cubes[0][d] <= m then cubes[0][d] else m
  }

  /** cube + v, coordinate by coordinate. */
  function Add(cube: Cube, v: seq<int>): (r: Cube)
    requires |v| == |cube|
    ensures |r| == |cube| && forall d :: 0 <= d < |cube| ==> r[d] == cube[d] + v[d]
  {
    seq(|cube|, d requires 0 <= d < |cube| => cube[d] + v[d])
  }

  /** Every cube moved by v. */
  function Moved(cubes: seq<Cube>, v: seq<int>): (r: seq<Cube>)
    requires Dimension(cubes, |v|)
    ensures |r| == |cubes| && Dimension(r, |v|)
    ensures forall i :: 0 <= i < |cubes| ==> r[i] == Add(cubes[i], v)
  {
    seq(|cubes|, i requires 0 <= i < |cubes| => Add(cubes[i], v))
  }

  /** b is a with every cube moved by the same vector v. */
  predicate Translate(a: seq<Cube>, b: seq<Cube>, v: seq<int>)
  {
    Dimension(a, |v|) && b == Moved(a, v)
  }

  /** In coordinate d no cube is below 0 and some cube is at 0. */
  predicate Floor(cubes: seq<Cube>, d: nat)
    requires forall i :: 0 <= i < |cubes| ==> d < |cubes[i]|
  {
    (forall i :: 0 <= i < |cubes| ==> cubes[i][d] >= 0) &&
    exists i :: 0 <= i < |cubes| && cubes[i][d] == 0
  }

  /** The cubes touch the origin's coordinate planes in every direction. */
  predicate AtOrigin(cubes: seq<Cube>, n: nat)
  {
    Dimension(cubes, n) && forall d :: 0 <= d < n ==> Floor(cubes, d)
  }

  /** move_to_origin(cubes): the cubes moved by minus the least coordinate
      in each direction, so that the result is a translate of the input
      lying at the origin. The source reads the dimension off cubes[0] and
      fails on an empty list or cubes of other lengths. */
  function MoveToOrigin(cubes: seq<Cube>): (r: seq<Cube>)
    requires cubes != [] && Dimension(cubes, |cubes[0]|)
    ensures |r| == |cubes| && AtOrigin(r, |cubes[0]|)
    ensures exists v :: Translate(cubes, r, v)
  {
    var n := |cubes[0]|;
    var shift := seq(n, d requires 0 <= d < n => -Minimum(cubes, d));
    var r := Moved(cubes, shift);
    assert Translate(cubes, r, shift);
    forall d | 0 <= d < n
      ensures Floor(r, d)
    {
      var i :| 0 <= i < |cubes| && cubes[i][d] == Minimum(cubes, d);
      assert r[i][d] == 0;
    }
    r
  }

  /** There is only one translate of a list of cubes at the origin, so
      move_to_origin does not depend on where the cubes started. */
  lemma OriginUnique(cubes: seq<Cube>, a: seq<Cube>, v: seq<int>, b: seq<Cube>, w: seq<int>)
    requires cubes != [] && Translate(cubes, a, v) && Translate(cubes, b, w)
    requires AtOrigin(a, |v|) && AtOrigin(b, |w|)
    ensures a == b
  {
    assert |v| == |cubes[0]| == |w|;
    forall d | 0 <= d < |v|
      ensures v[d] == w[d]
    {
      assert Floor(a, d) && Floor(b, d);
      var i :| 0 <= i < |a| && a[i][d] == 0;
      var j :| 0 <= j < |b| && b[j][d] == 0;
      assert a[j][d] >= 0 && b[i][d] >= 0;
      assert a[i][d] == cubes[i][d] + v[d] && b[i][d] == cubes[i][d] + w[d];
      assert a[j][d] == cubes[j][d] + v[d] && b[j][d] == cubes[j][d] + w[d];
    }
    assert v == w;
  }

  /** Moving a cube by u then by v moves it by u + v. */
  lemma AddTwice(cube: Cube, u: seq<int>, v: seq<int>, uv: seq<int>)
    requires |cube| == |u| == |v| == |uv| && forall d :: 0 <= d < |u| ==> uv[d] == u[d] + v[d]
    ensures Add(Add(cube, u), v) == Add(cube, uv)
  {
  }

  /** Moving a list of cubes first changes nothing: move_to_origin of a
      translate is move_to_origin of the original. */
  lemma MoveToOriginMoved(cubes: seq<Cube>, u: seq<int>)
    requires cubes != [] && Dimension(cubes, |u|)
    ensures Moved(cubes, u) != [] && Dimension(Moved(cubes, u), |Moved(cubes, u)[0]|)
    ensures MoveToOrigin(Moved(cubes, u)) == MoveToOrigin(cubes)
  {
    var moved := Moved(cubes, u);
    var a := MoveToOrigin(moved);
    var b := MoveToOrigin(cubes);
    var v :| Translate(moved, a, v);
    var w :| Translate(cubes, b, w);
    var uv := seq(|u|, d requires 0 <= d < |u| => u[d] + v[d]);
    forall i | 0 <= i < |cubes|
      ensures a[i] == Add(cubes[i], uv)
    {
      AddTwice(cubes[i], u, v, uv);
    }
    assert Translate(cubes, a, uv);
    OriginUnique(cubes, a, uv, b, w);
  }

  /** A list at the origin is left where it is. */
  lemma MoveToOriginIdempotent(cubes: seq<Cube>)
    requires cubes != [] && AtOrigin(cubes, |cubes[0]|)
    ensures MoveToOrigin(cubes) == cubes
  {
    var n := |cubes[0]|;
    var r := MoveToOrigin(cubes);
    var v :| Translate(cubes, r, v);
    var zero := seq(n, d => 0);
    forall i | 0 <= i < |cubes|
      ensures cubes[i] == Add(cubes[i], zero)
    {
    }
    assert Translate(cubes, cubes, zero);
    OriginUnique(cubes, r, v, cubes, zero);
  }

  // ---------------------------------------------------------------------
  // gen_rotations.

  /** The sign tuples of gen_rotations: the Gray codes of length n in the
      order gen_gray_codes yields them, 0 read as 1 and 1 as -1. */
  function SignCodes(n: nat): (r: seq<seq<int>>)
    ensures |r| == |GrayCodes.Gray(n, n)|
    ensures forall k :: 0 <= k < |r| ==> |r[k]| == n
    ensures forall k, t :: 0 <= k < |r| && 0 <= t < n ==> r[k][t] == 1 - 2 * GrayCodes.Gray(n, n)[k][t]
  {
    var g := GrayCodes.Gray(n, n);
    seq(|g|, k requires 0 <= k < |g| => seq(n, t requires 0 <= t < n => 1 - 2 * g[k][t]))
  }

  /** s[start::2]: the elements at start, start + 2, start + 4, ... */
  function EveryOther<T>(s: seq<T>, start: nat): (r: seq<T>)
    ensures |r| == if start < |s| then (|s| - start + 1) / 2 else 0
    ensures forall m :: 0 <= m < |r| ==> r[m] == s[start + 2 * m]
    decreases |s| - start
  {
    if start >= |s| then [] else [s[start]] + EveryOther(s, start + 2)
  }

  /** tuple(x*c for x, c in zip(permutation, signs)); zip stops at the
      shorter of the two. */
  function Flip(permutation: seq<int>, signs: seq<int>): (r: seq<int>)
  {
    var n := if |permutation| <= |signs| then |permutation| else |signs|;
    seq(n, t requires 0 <= t < n => permutation[t] * signs[t])
  }

  /** The inner loop of gen_rotations: one permutation under each of the
      sign tuples. */
  function FlipAll(permutation: seq<int>, signs: seq<seq<int>>): (r: seq<seq<int>>)
    ensures |r| == |signs| && forall m :: 0 <= m < |r| ==> r[m] == Flip(permutation, signs[m])
  {
    seq(|signs|, m requires 0 <= m < |signs| => Flip(permutation, signs[m]))
  }

  /** The outer loop of gen_rotations from the permutation at index i on:
      permutation i takes the sign tuples codes[i % 2::2]. */
  function RotationsFrom(perms: seq<seq<int>>, codes: seq<seq<int>>, i: nat): seq<seq<int>>
    decreases |perms| - i
  {
    if i >= |perms| then []
    else FlipAll(perms[i], EveryOther(codes, i % 2)) + RotationsFrom(perms, codes, i + 1)
  }

  /** gen_rotations(sequence) within fuel steps of gen_permutations. */
  function Rotations(sequence: seq<int>, fuel: nat): seq<seq<int>>
  {
    RotationsFrom(SteinhausJohnsonTrotter.Arrangements(sequence, fuel), SignCodes(|sequence|), 0)
  }

  /** When both halves of the codes hold h tuples, every permutation from
      index i0 on gives h rotations. */
  lemma {:induction false} RotationsFromLength(perms: seq<seq<int>>, codes: seq<seq<int>>, h: nat, i0: nat)
    requires i0 <= |perms|
    requires |EveryOther(codes, 0)| == h && |EveryOther(codes, 1)| == h
    decreases |perms| - i0
    ensures |RotationsFrom(perms, codes, i0)| == (|perms| - i0) * h
  {
    if i0 < |perms| {
      RotationsFromLength(perms, codes, h, i0 + 1);
      assert (|perms| - i0) * h == h + (|perms| - (i0 + 1)) * h;
    }
  }

  /** The rotations from index i0 on start with the h of permutation i0. */
  lemma RotationsFromHead(perms: seq<seq<int>>, codes: seq<seq<int>>, h: nat, i0: nat, m: nat)
    requires i0 < |perms| && m < h
    requires |EveryOther(codes, 0)| == h && |EveryOther(codes, 1)| == h
    ensures m < |RotationsFrom(perms, codes, i0)| && 2 * m + i0 % 2 < |codes|
    ensures RotationsFrom(perms, codes, i0)[m] == Flip(perms[i0], codes[2 * m + i0 % 2])
  {
    var head := FlipAll(perms[i0], EveryOther(codes, i0 % 2));
    assert RotationsFrom(perms, codes, i0) == head + RotationsFrom(perms, codes, i0 + 1);
    assert EveryOther(codes, i0 % 2)[m] == codes[i0 % 2 + 2 * m];
  }

  /** Past the h rotations of permutation i0 come those from i0 + 1 on. */
  lemma RotationsFromTail(perms: seq<seq<int>>, codes: seq<seq<int>>, h: nat, i0: nat, k: nat)
    requires i0 < |perms| && h <= k
    requires |EveryOther(codes, 0)| == h && |EveryOther(codes, 1)| == h
    requires k - h < |RotationsFrom(perms, codes, i0 + 1)|
    ensures k < |RotationsFrom(perms, codes, i0)|
    ensures RotationsFrom(perms, codes, i0)[k] == RotationsFrom(perms, codes, i0 + 1)[k - h]
  {
    var head := FlipAll(perms[i0], EveryOther(codes, i0 % 2));
    assert RotationsFrom(perms, codes, i0) == head + RotationsFrom(perms, codes, i0 + 1);
  }

  /** q * h, one block of h at a time. */
  function Blocks(q: nat, h: nat): nat
  {
    if q == 0 then 0 else h + Blocks(q - 1, h)
  }

  lemma {:induction false} BlocksProduct(q: nat, h: nat)
    ensures Blocks(q, h) == q * h
  {
    if q > 0 {
      BlocksProduct(q - 1, h);
      assert q * h == (q - 1) * h + h;
    }
  }

  /** Permutation i = i0 + q gives the h rotations from index q * h on,
      the m-th, at index k = q * h + m, under code 2m + i % 2. */
  lemma {:induction false} RotationsFromAt(perms: seq<seq<int>>, codes: seq<seq<int>>, h: nat, i0: nat, q: nat, i: nat, m: nat, k: nat)
    requires i == i0 + q && i < |perms| && m < h && k == Blocks(q, h) + m
    requires |EveryOther(codes, 0)| == h && |EveryOther(codes, 1)| == h
    decreases q
    ensures k < |RotationsFrom(perms, codes, i0)|
    ensures 2 * m + i % 2 < |codes|
    ensures RotationsFrom(perms, codes, i0)[k] == Flip(perms[i], codes[2 * m + i % 2])
  {
    if q == 0 {
      RotationsFromHead(perms, codes, h, i0, m);
      assert RotationsFrom(perms, codes, i0)[k] == Flip(perms[i], codes[2 * m + i % 2]);
    } else {
      RotationsFromAt(perms, codes, h, i0 + 1, q - 1, i, m, k - h);
      RotationsFromTail(perms, codes, h, i0, k);
      assert RotationsFrom(perms, codes, i0)[k] == Flip(perms[i], codes[2 * m + i % 2]);
    }
  }

  /** Both halves of 2 ** n codes, n >= 1, hold 2 ** (n - 1) tuples. */
  lemma Halves(n: nat)
    requires n >= 1
    ensures |EveryOther(SignCodes(n), 0)| == Pow(2, n - 1) && |EveryOther(SignCodes(n), 1)| == Pow(2, n - 1)
  {
    GrayCodes.GrayCount(n, n);
    assert Pow(2, n) == 2 * Pow(2, n - 1);
    PowPositive(2, n - 1);
  }

  /** Signs read off a 0/1 code turn a tuple exactly where the code holds 1. */
  lemma FlipCode(permutation: seq<int>, signs: seq<int>, code: seq<int>)
    requires |permutation| == |signs| == |code| && GrayCodes.Binary(code)
    requires forall t :: 0 <= t < |code| ==> signs[t] == 1 - 2 * code[t]
    ensures |Flip(permutation, signs)| == |permutation|
    ensures forall t :: 0 <= t < |code| ==>
      Flip(permutation, signs)[t] == if code[t] == 1 then -permutation[t] else permutation[t]
  {
    forall t | 0 <= t < |code|
      ensures Flip(permutation, signs)[t] == if code[t] == 1 then -permutation[t] else permutation[t]
    {
      if code[t] == 1 {
        assert signs[t] == -1;
      } else {
        assert signs[t] == 1;
      }
    }
  }

  /** gen_rotations(sequence) yields 2 ** (n - 1) tuples for each
      permutation. */
  lemma RotationsCount(sequence: seq<int>, fuel: nat)
    requires |sequence| >= 1
    ensures |Rotations(sequence, fuel)| == |SteinhausJohnsonTrotter.Arrangements(sequence, fuel)| * Pow(2, |sequence| - 1)
  {
    Halves(|sequence|);
    RotationsFromLength(SteinhausJohnsonTrotter.Arrangements(sequence, fuel), SignCodes(|sequence|), Pow(2, |sequence| - 1), 0);
  }

  /** With the sign tuples of length n >= 1, the rotation at index
      i * 2 ** (n - 1) + m (Blocks, see BlocksProduct) is permutation i
      under sign tuple 2m + i % 2. */
  lemma SignedIndex(perms: seq<seq<int>>, n: nat, i: nat, m: nat)
    requires n >= 1 && i < |perms| && m < Pow(2, n - 1)
    ensures Blocks(i, Pow(2, n - 1)) + m < |RotationsFrom(perms, SignCodes(n), 0)|
    ensures 2 * m + i % 2 < |SignCodes(n)|
    ensures RotationsFrom(perms, SignCodes(n), 0)[Blocks(i, Pow(2, n - 1)) + m] == Flip(perms[i], SignCodes(n)[2 * m + i % 2])
  {
    var h := Pow(2, n - 1);
    var k := Blocks(i, h) + m;
    Halves(n);
    RotationsFromAt(perms, SignCodes(n), h, 0, i, i, m, k);
  }

  /** The rotation at index i * 2 ** (n - 1) + m is permutation i under
      sign tuple 2m + i % 2: the permutations come in order, each with the
      sign tuples of its parity in the order of the Gray code. */
  lemma RotationIndex(sequence: seq<int>, fuel: nat, i: nat, m: nat)
    requires |sequence| >= 1
    requires i < |SteinhausJohnsonTrotter.Arrangements(sequence, fuel)| && m < Pow(2, |sequence| - 1)
    ensures Blocks(i, Pow(2, |sequence| - 1)) + m < |Rotations(sequence, fuel)|
    ensures 2 * m + i % 2 < |SignCodes(|sequence|)|
    ensures Rotations(sequence, fuel)[Blocks(i, Pow(2, |sequence| - 1)) + m] ==
      Flip(SteinhausJohnsonTrotter.Arrangements(sequence, fuel)[i], SignCodes(|sequence|)[2 * m + i % 2])
  {
    SignedIndex(SteinhausJohnsonTrotter.Arrangements(sequence, fuel), |sequence|, i, m);
  }

  /** Permutation i, itself a rearrangement of the input, under sign
      tuple c of the same parity as i: the signs are turned exactly where
      Gray code c holds 1, and their number has the parity of the
      permutation. With RotationIndex: every yield of gen_rotations is a
      rotation, never a reflection. */
  lemma SignedPermutation(sequence: seq<int>, fuel: nat, i: nat, c: nat)
    requires i < |SteinhausJohnsonTrotter.Arrangements(sequence, fuel)|
    requires c < |GrayCodes.Gray(|sequence|, |sequence|)| && c % 2 == i % 2
    ensures |SteinhausJohnsonTrotter.Arrangements(sequence, fuel)| == |SteinhausJohnsonTrotter.Run(SteinhausJohnsonTrotter.Start(|sequence|), fuel)|
    ensures
      var n := |sequence|;
      var permutation := SteinhausJohnsonTrotter.Arrangements(sequence, fuel)[i];
      var rotation := Flip(permutation, SignCodes(n)[c]);
      var code := GrayCodes.Gray(n, n)[c];
      |rotation| == n && multiset(permutation) == multiset(sequence) &&
      GrayCodes.Binary(code) &&
      (forall t :: 0 <= t < n ==> rotation[t] == if code[t] == 1 then -permutation[t] else permutation[t]) &&
      GrayCodes.Weight(code) % 2 == i % 2 &&
      SteinhausJohnsonTrotter.Inversions(SteinhausJohnsonTrotter.Run(SteinhausJohnsonTrotter.Start(n), fuel)[i].values) % 2 == i % 2
  {
    var n := |sequence|;
    var perms := SteinhausJohnsonTrotter.Arrangements(sequence, fuel);
    var code := GrayCodes.Gray(n, n)[c];
    PermutationAt(sequence, fuel, i);
    CodeAt(n, c);
    FlipCode(perms[i], SignCodes(n)[c], code);
  }

  /** Permutation i rearranges the input and its state has the parity of i. */
  lemma PermutationAt(sequence: seq<int>, fuel: nat, i: nat)
    requires i < |SteinhausJohnsonTrotter.Arrangements(sequence, fuel)|
    ensures |SteinhausJohnsonTrotter.Arrangements(sequence, fuel)| == |SteinhausJohnsonTrotter.Run(SteinhausJohnsonTrotter.Start(|sequence|), fuel)|
    ensures multiset(SteinhausJohnsonTrotter.Arrangements(sequence, fuel)[i]) == multiset(sequence)
    ensures |SteinhausJohnsonTrotter.Arrangements(sequence, fuel)[i]| == |sequence|
    ensures SteinhausJohnsonTrotter.Inversions(SteinhausJohnsonTrotter.Run(SteinhausJohnsonTrotter.Start(|sequence|), fuel)[i].values) % 2 == i % 2
  {
    var perms := SteinhausJohnsonTrotter.Arrangements(sequence, fuel);
    SteinhausJohnsonTrotter.ArrangementsLength(sequence, fuel);
    SteinhausJohnsonTrotter.ArrangementRearranges(sequence, fuel, i);
    assert |multiset(perms[i])| == |multiset(sequence)|;
    SteinhausJohnsonTrotter.StateParity(|sequence|, fuel, i);
  }

  /** Gray code c is a 0/1 code of length n whose number of 1s has the
      parity of c. */
  lemma CodeAt(n: nat, c: nat)
    requires c < |GrayCodes.Gray(n, n)|
    ensures GrayCodes.Binary(GrayCodes.Gray(n, n)[c]) && |GrayCodes.Gray(n, n)[c]| == n
    ensures GrayCodes.Weight(GrayCodes.Gray(n, n)[c]) % 2 == c % 2
  {
    GrayCodes.GrayShape(n, n);
    GrayCodes.GrayParity(n, n);
  }

  // ---------------------------------------------------------------------
  // The shape of the rotations, which gen_avatars relies on.

  /** Every tuple of gen_permutations has the length of the input. */
  lemma ArrangementsShape(sequence: seq<int>, fuel: nat)
    ensures forall i :: 0 <= i < |SteinhausJohnsonTrotter.Arrangements(sequence, fuel)| ==>
      |SteinhausJohnsonTrotter.Arrangements(sequence, fuel)[i]| == |sequence|
  {
    SteinhausJohnsonTrotter.ArrangementsLength(sequence, fuel);
    forall i | 0 <= i < |SteinhausJohnsonTrotter.Arrangements(sequence, fuel)|
      ensures |SteinhausJohnsonTrotter.Arrangements(sequence, fuel)[i]| == |sequence|
    {
      SteinhausJohnsonTrotter.ArrangementsAt(sequence, fuel, i);
    }
  }

  lemma {:induction false} RotationsFromShape(perms: seq<seq<int>>, codes: seq<seq<int>>, i0: nat, n: nat)
    requires forall i :: 0 <= i < |perms| ==> |perms[i]| == n
    requires forall c :: 0 <= c < |codes| ==> |codes[c]| == n
    decreases |perms| - i0
    ensures forall k :: 0 <= k < |RotationsFrom(perms, codes, i0)| ==> |RotationsFrom(perms, codes, i0)[k]| == n
  {
    if i0 < |perms| {
      RotationsFromShape(perms, codes, i0 + 1, n);
      var head := FlipAll(perms[i0], EveryOther(codes, i0 % 2));
      assert RotationsFrom(perms, codes, i0) == head + RotationsFrom(perms, codes, i0 + 1);
    }
  }

  lemma {:induction false} RotationsFromSameLength(p: seq<seq<int>>, q: seq<seq<int>>, codes: seq<seq<int>>, i0: nat)
    requires |p| == |q|
    decreases |p| - i0
    ensures |RotationsFrom(p, codes, i0)| == |RotationsFrom(q, codes, i0)|
  {
    if i0 < |p| {
      RotationsFromSameLength(p, q, codes, i0 + 1);
    }
  }

  /** Every rotation of a cube is a cube of the same dimension, and cubes
      of one dimension have as many rotations: zip(*map(gen_rotations,
      cubes)) loses none of them. */
  lemma RotationsShape(a: Cube, b: Cube, fuel: nat)
    requires |a| == |b|
    ensures |Rotations(a, fuel)| == |Rotations(b, fuel)|
    ensures forall k :: 0 <= k < |Rotations(a, fuel)| ==> |Rotations(a, fuel)[k]| == |a|
  {
    SteinhausJohnsonTrotter.ArrangementsLength(a, fuel);
    SteinhausJohnsonTrotter.ArrangementsLength(b, fuel);
    RotationsFromSameLength(SteinhausJohnsonTrotter.Arrangements(a, fuel), SteinhausJohnsonTrotter.Arrangements(b, fuel), SignCodes(|a|), 0);
    ArrangementsShape(a, fuel);
    RotationsFromShape(SteinhausJohnsonTrotter.Arrangements(a, fuel), SignCodes(|a|), 0, |a|);
  }

  /** A cube has at least one rotation: the first permutation under the
      first sign tuple. */
  lemma RotationsNonEmpty(a: Cube, fuel: nat)
    ensures |Rotations(a, fuel)| >= 1
  {
    var perms := SteinhausJohnsonTrotter.Arrangements(a, fuel);
    SteinhausJohnsonTrotter.ArrangementsLength(a, fuel);
    var head := FlipAll(perms[0], EveryOther(SignCodes(|a|), 0));
    assert RotationsFrom(perms, SignCodes(|a|), 0) == head + RotationsFrom(perms, SignCodes(|a|), 1);
  }

  /** Rotating a sum is summing the rotations. */
  lemma FlipAdd(p: seq<int>, q: seq<int>, signs: seq<int>)
    requires |p| == |q| == |signs|
    ensures Flip(Add(p, q), signs) == Add(Flip(p, signs), Flip(q, signs))
  {
    forall t | 0 <= t < |p|
      ensures Flip(Add(p, q), signs)[t] == Flip(p, signs)[t] + Flip(q, signs)[t]
    {
      assert (p[t] + q[t]) * signs[t] == p[t] * signs[t] + q[t] * signs[t];
    }
  }

  /** s is a and b added tuple by tuple, every tuple of length n. */
  predicate SumOf(s: seq<seq<int>>, a: seq<seq<int>>, b: seq<seq<int>>, n: nat)
  {
    |s| == |a| == |b| &&
    forall k :: 0 <= k < |s| ==> |a[k]| == n == |b[k]| && s[k] == Add(a[k], b[k])
  }

  /** Sums put one after the other are the sum of the concatenations. */
  lemma SumOfConcat(s1: seq<seq<int>>, a1: seq<seq<int>>, b1: seq<seq<int>>,
                    s2: seq<seq<int>>, a2: seq<seq<int>>, b2: seq<seq<int>>, n: nat)
    requires SumOf(s1, a1, b1, n) && SumOf(s2, a2, b2, n)
    ensures SumOf(s1 + s2, a1 + a2, b1 + b2, n)
  {
    forall k | 0 <= k < |s1 + s2|
      ensures |(a1 + a2)[k]| == n == |(b1 + b2)[k]| && (s1 + s2)[k] == Add((a1 + a2)[k], (b1 + b2)[k])
    {
      if k >= |s1| {
        assert (s1 + s2)[k] == s2[k - |s1|] && (a1 + a2)[k] == a2[k - |s1|] && (b1 + b2)[k] == b2[k - |s1|];
      }
    }
  }

  /** One permutation that is a sum, under every sign tuple. */
  lemma FlipAllAdd(p: seq<int>, q: seq<int>, signs: seq<seq<int>>, n: nat)
    requires |p| == |q| == n && forall m :: 0 <= m < |signs| ==> |signs[m]| == n
    ensures SumOf(FlipAll(Add(p, q), signs), FlipAll(p, signs), FlipAll(q, signs), n)
  {
    forall m | 0 <= m < |signs|
      ensures FlipAll(Add(p, q), signs)[m] == Add(FlipAll(p, signs)[m], FlipAll(q, signs)[m])
    {
      FlipAdd(p, q, signs[m]);
    }
  }

  lemma {:induction false} RotationsFromAdd(pa: seq<seq<int>>, pb: seq<seq<int>>, ps: seq<seq<int>>, codes: seq<seq<int>>, n: nat, i0: nat)
    requires SumOf(ps, pa, pb, n)
    requires forall c :: 0 <= c < |codes| ==> |codes[c]| == n
    decreases |pa| - i0
    ensures SumOf(RotationsFrom(ps, codes, i0), RotationsFrom(pa, codes, i0), RotationsFrom(pb, codes, i0), n)
  {
    if i0 < |pa| {
      RotationsFromAdd(pa, pb, ps, codes, n, i0 + 1);
      var signs := EveryOther(codes, i0 % 2);
      assert forall m :: 0 <= m < |signs| ==> |signs[m]| == n;
      FlipAllAdd(pa[i0], pb[i0], signs, n);
      SumOfConcat(FlipAll(ps[i0], signs), FlipAll(pa[i0], signs), FlipAll(pb[i0], signs),
        RotationsFrom(ps, codes, i0 + 1), RotationsFrom(pa, codes, i0 + 1), RotationsFrom(pb, codes, i0 + 1), n);
    }
  }

  /** The tuples of gen_permutations of a sum are the sums of the tuples. */
  lemma ArrangementsAdd(a: Cube, v: seq<int>, fuel: nat)
    requires |a| == |v|
    ensures |SteinhausJohnsonTrotter.Arrangements(Add(a, v), fuel)| == |SteinhausJohnsonTrotter.Arrangements(a, fuel)|
    ensures |SteinhausJohnsonTrotter.Arrangements(v, fuel)| == |SteinhausJohnsonTrotter.Arrangements(a, fuel)|
    ensures forall i :: 0 <= i < |SteinhausJohnsonTrotter.Arrangements(a, fuel)| ==>
      |SteinhausJohnsonTrotter.Arrangements(a, fuel)[i]| == |a| &&
      |SteinhausJohnsonTrotter.Arrangements(v, fuel)[i]| == |a| &&
      SteinhausJohnsonTrotter.Arrangements(Add(a, v), fuel)[i] ==
        Add(SteinhausJohnsonTrotter.Arrangements(a, fuel)[i], SteinhausJohnsonTrotter.Arrangements(v, fuel)[i])
  {
    var s := Add(a, v);
    SteinhausJohnsonTrotter.ArrangementsLength(a, fuel);
    SteinhausJohnsonTrotter.ArrangementsLength(v, fuel);
    SteinhausJohnsonTrotter.ArrangementsLength(s, fuel);
    ArrangementsShape(a, fuel);
    ArrangementsShape(v, fuel);
    forall i | 0 <= i < |SteinhausJohnsonTrotter.Arrangements(a, fuel)|
      ensures SteinhausJohnsonTrotter.Arrangements(s, fuel)[i] ==
        Add(SteinhausJohnsonTrotter.Arrangements(a, fuel)[i], SteinhausJohnsonTrotter.Arrangements(v, fuel)[i])
    {
      SteinhausJohnsonTrotter.ArrangementsAt(a, fuel, i);
      SteinhausJohnsonTrotter.ArrangementsAt(v, fuel, i);
      SteinhausJohnsonTrotter.ArrangementsAt(s, fuel, i);
    }
  }

  /** Rotations are linear: the k-th rotation of a + v is the sum of the
      k-th rotations of a and of v. */
  lemma RotationsAdd(a: Cube, v: seq<int>, fuel: nat)
    requires |a| == |v|
    ensures |Rotations(Add(a, v), fuel)| == |Rotations(a, fuel)| == |Rotations(v, fuel)|
    ensures forall k :: 0 <= k < |Rotations(a, fuel)| ==>
      |Rotations(a, fuel)[k]| == |a| == |Rotations(v, fuel)[k]| &&
      Rotations(Add(a, v), fuel)[k] == Add(Rotations(a, fuel)[k], Rotations(v, fuel)[k])
  {
    ArrangementsAdd(a, v, fuel);
    assert SumOf(SteinhausJohnsonTrotter.Arrangements(Add(a, v), fuel), SteinhausJohnsonTrotter.Arrangements(a, fuel),
      SteinhausJohnsonTrotter.Arrangements(v, fuel), |a|);
    RotationsFromAdd(SteinhausJohnsonTrotter.Arrangements(a, fuel), SteinhausJohnsonTrotter.Arrangements(v, fuel),
      SteinhausJohnsonTrotter.Arrangements(Add(a, v), fuel), SignCodes(|a|), |a|, 0);
  }

  // ---------------------------------------------------------------------
  // Python's order on tuples and on lists of tuples.

  /** a < b on tuples of numbers: at the first position where they differ
      the smaller number wins, and a proper prefix comes first. */
  predicate CubeBelow(a: Cube, b: Cube)
    decreases |a|
  {
    b != [] && (a == [] || a[0] < b[0] || (a[0] == b[0] && CubeBelow(a[1..], b[1..])))
  }

  lemma {:induction false} CubeBelowIrreflexive(a: Cube)
    decreases |a|
    ensures !CubeBelow(a, a)
  {
    if a != [] {
      CubeBelowIrreflexive(a[1..]);
    }
  }

  lemma {:induction false} CubeBelowTransitive(a: Cube, b: Cube, c: Cube)
    requires CubeBelow(a, b) && CubeBelow(b, c)
    decreases |a|
    ensures CubeBelow(a, c)
  {
    if a != [] && a[0] == b[0] && b[0] == c[0] {
      CubeBelowTransitive(a[1..], b[1..], c[1..]);
    }
  }

  lemma {:induction false} CubeBelowTotal(a: Cube, b: Cube)
    decreases |a|
    ensures a == b || CubeBelow(a, b) || CubeBelow(b, a)
  {
    if a != [] && b != [] && a[0] == b[0] {
      CubeBelowTotal(a[1..], b[1..]);
      if a[1..] == b[1..] {
        assert a == [a[0]] + a[1..] && b == [b[0]] + b[1..];
      }
    }
  }

  /** a < b on lists of tuples: the same comparison, tuple by tuple. */
  predicate ListBelow(a: seq<Cube>, b: seq<Cube>)
    decreases |a|
  {
    b != [] && (a == [] || CubeBelow(a[0], b[0]) || (a[0] == b[0] && ListBelow(a[1..], b[1..])))
  }

  lemma {:induction false} ListBelowIrreflexive(a: seq<Cube>)
    decreases |a|
    ensures !ListBelow(a, a)
  {
    if a != [] {
      CubeBelowIrreflexive(a[0]);
      ListBelowIrreflexive(a[1..]);
    }
  }

  lemma {:induction false} ListBelowTransitive(a: seq<Cube>, b: seq<Cube>, c: seq<Cube>)
    requires ListBelow(a, b) && ListBelow(b, c)
    decreases |a|
    ensures ListBelow(a, c)
  {
    if a != [] {
      if CubeBelow(a[0], b[0]) && CubeBelow(b[0], c[0]) {
        CubeBelowTransitive(a[0], b[0], c[0]);
      } else if a[0] == b[0] && b[0] == c[0] {
        ListBelowTransitive(a[1..], b[1..], c[1..]);
      }
    }
  }

  lemma {:induction false} ListBelowTotal(a: seq<Cube>, b: seq<Cube>)
    decreases |a|
    ensures a == b || ListBelow(a, b) || ListBelow(b, a)
  {
    if a != [] && b != [] {
      CubeBelowTotal(a[0], b[0]);
      if a[0] == b[0] {
        ListBelowTotal(a[1..], b[1..]);
        if a[1..] == b[1..] {
          assert a == [a[0]] + a[1..] && b == [b[0]] + b[1..];
        }
      }
    }
  }

  // ---------------------------------------------------------------------
  // sorted(frozenset(...)) and min(...).

  /** Strictly increasing in Python's order: sorted, and no cube twice. */
  predicate Ascending(s: seq<Cube>)
  {
    forall i, j :: 0 <= i < j < |s| ==> CubeBelow(s[i], s[j])
  }

  lemma BelowAll(c: Cube, s: seq<Cube>)
    requires Ascending(s) && s != [] && CubeBelow(c, s[0])
    ensures forall j :: 0 <= j < |s| ==> CubeBelow(c, s[j])
  {
    forall j | 0 < j < |s|
      ensures CubeBelow(c, s[j])
    {
      CubeBelowTransitive(c, s[0], s[j]);
    }
  }

  /** c put in its place in an ascending list, unless it is there already. */
  function InsertCube(c: Cube, s: seq<Cube>): (r: seq<Cube>)
    requires Ascending(s)
    ensures Ascending(r) && forall x :: x in r <==> x == c || x in s
  {
    if s == [] then [c]
    else if c == s[0] then s
    else if CubeBelow(c, s[0]) then
      BelowAll(c, s);
      [c] + s
    else
      CubeBelowTotal(c, s[0]);
      var rest := InsertCube(c, s[1..]);
      assert forall j :: 0 <= j < |rest| ==> CubeBelow(s[0], rest[j]) by {
        forall j | 0 <= j < |rest|
          ensures CubeBelow(s[0], rest[j])
        {
          assert rest[j] in rest;
          if rest[j] != c {
            var k :| 1 <= k < |s| && s[k] == rest[j];
          }
        }
      }
      [s[0]] + rest
  }

  /** sorted(frozenset(cubes)): the cubes in increasing order, each once. */
  function SortCubes(cubes: seq<Cube>): (r: seq<Cube>)
    ensures Ascending(r) && forall x :: x in r <==> x in cubes
  {
    if cubes == [] then [] else InsertCube(cubes[0], SortCubes(cubes[1..]))
  }

  /** The members of a list of cubes. */
  function Members(cubes: seq<Cube>): set<Cube>
  {
    set c | c in cubes
  }

  /** Only one ascending list has given members, so SortCubes is the
      sorted list of the set of the cubes whatever their order. */
  lemma {:induction false} AscendingUnique(r: seq<Cube>, s: seq<Cube>)
    requires Ascending(r) && Ascending(s) && Members(r) == Members(s)
    decreases |r|
    ensures r == s
  {
    if s != [] {
      assert s[0] in Members(s);
    }
    if r != [] {
      assert r[0] in Members(s);
      assert s != [] && s[0] in Members(r);
      if r[0] != s[0] {
        var i :| 0 <= i < |s| && s[i] == r[0];
        var j :| 0 <= j < |r| && r[j] == s[0];
        CubeBelowTransitive(r[0], s[0], r[0]);
        CubeBelowIrreflexive(r[0]);
      }
      forall x
        ensures x in Members(r[1..]) <==> x in Members(s[1..])
      {
        if x in r[1..] {
          var i :| 1 <= i < |r| && r[i] == x;
          assert x in Members(s);
          var k :| 0 <= k < |s| && s[k] == x;
          CubeBelowIrreflexive(x);
          assert k != 0;
          assert x in s[1..];
        }
        if x in s[1..] {
          var i :| 1 <= i < |s| && s[i] == x;
          assert x in Members(r);
          var k :| 0 <= k < |r| && r[k] == x;
          CubeBelowIrreflexive(x);
          assert k != 0;
          assert x in r[1..];
        }
      }
      AscendingUnique(r[1..], s[1..]);
      assert r == [r[0]] + r[1..] && s == [s[0]] + s[1..];
    }
  }

  /** min(lists): a list no other one is below. */
  function Least(lists: seq<seq<Cube>>): (r: seq<Cube>)
    requires lists != []
    ensures r in lists
    ensures forall k :: 0 <= k < |lists| ==> r == lists[k] || ListBelow(r, lists[k])
  {
    if |lists| == 1 then lists[0]
    else
      var rest := Least(lists[1..]);
      assert forall k :: 1 <= k < |lists| ==> lists[k] == lists[1..][k - 1];
      if ListBelow(lists[0], rest) then
        assert forall k :: 0 <= k < |lists| ==> lists[0] == lists[k] || ListBelow(lists[0], lists[k]) by {
          forall k | 1 <= k < |lists| && rest != lists[k]
            ensures ListBelow(lists[0], lists[k])
          {
            ListBelowTransitive(lists[0], rest, lists[k]);
          }
        }
        lists[0]
      else
        ListBelowTotal(lists[0], rest);
        rest
  }

  /** The least element is the only one no other is below. */
  lemma LeastUnique(lists: seq<seq<Cube>>, r: seq<Cube>)
    requires lists != [] && r in lists
    requires forall k :: 0 <= k < |lists| ==> r == lists[k] || ListBelow(r, lists[k])
    ensures r == Least(lists)
  {
    var m := Least(lists);
    var i :| 0 <= i < |lists| && lists[i] == m;
    var j :| 0 <= j < |lists| && lists[j] == r;
    if r != m {
      ListBelowTransitive(r, m, r);
      ListBelowIrreflexive(r);
    }
  }

  // ---------------------------------------------------------------------
  // Solid.

  /** Rotation k of zip(*map(gen_rotations, cubes)): the k-th rotation of
      every cube. */
  function Rotated(cubes: seq<Cube>, fuel: nat, k: nat): (r: seq<Cube>)
    requires cubes != [] && Dimension(cubes, |cubes[0]|) && k < |Rotations(cubes[0], fuel)|
    ensures |r| == |cubes| && Dimension(r, |cubes[0]|)
    ensures forall j :: 0 <= j < |cubes| ==> k < |Rotations(cubes[j], fuel)| && r[j] == Rotations(cubes[j], fuel)[k]
  {
    forall j | 0 <= j < |cubes|
      ensures |Rotations(cubes[j], fuel)| == |Rotations(cubes[0], fuel)|
      ensures forall x :: 0 <= x < |Rotations(cubes[j], fuel)| ==> |Rotations(cubes[j], fuel)[x]| == |cubes[0]|
    {
      RotationsShape(cubes[j], cubes[0], fuel);
    }
    seq(|cubes|, j requires 0 <= j < |cubes| => Rotations(cubes[j], fuel)[k])
  }

  /** gen_avatars(cubes): every rotation of the cubes, moved to the origin. */
  function Avatars(cubes: seq<Cube>, fuel: nat): (r: seq<seq<Cube>>)
    requires cubes != [] && Dimension(cubes, |cubes[0]|)
    ensures |r| == |Rotations(cubes[0], fuel)| >= 1
    ensures forall k :: 0 <= k < |r| ==>
      |r[k]| == |cubes| && AtOrigin(r[k], |cubes[0]|) && r[k] == MoveToOrigin(Rotated(cubes, fuel, k))
  {
    RotationsNonEmpty(cubes[0], fuel);
    seq(|Rotations(cubes[0], fuel)|, k requires 0 <= k < |Rotations(cubes[0], fuel)| => MoveToOrigin(Rotated(cubes, fuel, k)))
  }

  /** A solid: its canonical cubes, and number_of_permutations. */
  datatype Solid = Solid(cubes: seq<Cube>, numberOfPermutations: int)

  /** map(sorted, avatars): every avatar as the sorted list of its cubes. */
  function SortedAvatars(cubes: seq<Cube>, fuel: nat): (r: seq<seq<Cube>>)
    requires cubes != [] && Dimension(cubes, |cubes[0]|)
    ensures |r| == |Avatars(cubes, fuel)|
    ensures forall k :: 0 <= k < |r| ==> r[k] == SortCubes(Avatars(cubes, fuel)[k])
  {
    var avatars := Avatars(cubes, fuel);
    seq(|avatars|, k requires 0 <= k < |avatars| => SortCubes(avatars[k]))
  }

  /** The image of a set of lists under Members is no larger than the set. */
  lemma {:induction false} MembersImage(lists: set<seq<Cube>>)
    decreases |lists|
    ensures |set a | a in lists :: Members(a)| <= |lists|
  {
    if lists != {} {
      var x :| x in lists;
      var rest := lists - {x};
      MembersImage(rest);
      assert (set a | a in lists :: Members(a)) == (set a | a in rest :: Members(a)) + {Members(x)};
    }
  }

  lemma QuotientPositive(n: int, d: int)
    requires 1 <= d <= n
    ensures n / d >= 1
  {
  }

  /** Solid(cubes). Of the avatars, the least in Python's order of their
      sorted cube sets becomes the cubes; number_of_permutations is the
      number of different avatars over the number of different cube sets
      among them. The source fails on an empty list. */
  function MakeSolid(cubes: seq<Cube>, fuel: nat): (s: Solid)
    requires cubes != [] && Dimension(cubes, |cubes[0]|)
    ensures Ascending(s.cubes) && AtOrigin(s.cubes, |cubes[0]|)
    ensures exists k :: 0 <= k < |Avatars(cubes, fuel)| && Members(s.cubes) == Members(Avatars(cubes, fuel)[k])
    ensures forall k :: 0 <= k < |Avatars(cubes, fuel)| ==>
      s.cubes == SortCubes(Avatars(cubes, fuel)[k]) || ListBelow(s.cubes, SortCubes(Avatars(cubes, fuel)[k]))
    ensures s.numberOfPermutations >= 1
  {
    var avatars := Avatars(cubes, fuel);
    var ordered := set a | a in avatars;
    var unordered := set a | a in ordered :: Members(a);
    assert Members(avatars[0]) in unordered;
    MembersImage(ordered);
    QuotientPositive(|ordered|, |unordered|);
    var least := Least(SortedAvatars(cubes, fuel));
    var k :| 0 <= k < |avatars| && SortedAvatars(cubes, fuel)[k] == least;
    assert Members(least) == Members(avatars[k]);
    AtOriginMembers(avatars[k], least, |cubes[0]|);
    Solid(least, |ordered| / |unordered|)
  }

  /** Being at the origin depends only on the cubes present. */
  lemma AtOriginMembers(a: seq<Cube>, b: seq<Cube>, n: nat)
    requires AtOrigin(a, n) && Members(a) == Members(b)
    ensures AtOrigin(b, n)
  {
    forall i | 0 <= i < |b|
      ensures |b[i]| == n
    {
      assert b[i] in Members(a);
    }
    forall d | 0 <= d < n
      ensures Floor(b, d)
    {
      assert Floor(a, d);
      forall i | 0 <= i < |b|
        ensures b[i][d] >= 0
      {
        assert b[i] in Members(a);
      }
      var i :| 0 <= i < |a| && a[i][d] == 0;
      assert a[i] in Members(b);
    }
  }

  /** Rotating moved cubes is moving the rotated cubes. */
  lemma RotatedMoved(cubes: seq<Cube>, v: seq<int>, fuel: nat, k: nat)
    requires cubes != [] && Dimension(cubes, |v|) && k < |Rotations(cubes[0], fuel)|
    ensures Moved(cubes, v) != [] && Dimension(Moved(cubes, v), |Moved(cubes, v)[0]|)
    ensures k < |Rotations(Moved(cubes, v)[0], fuel)| && k < |Rotations(v, fuel)| && |Rotations(v, fuel)[k]| == |v|
    ensures Rotated(Moved(cubes, v), fuel, k) == Moved(Rotated(cubes, fuel, k), Rotations(v, fuel)[k])
  {
    var moved := Moved(cubes, v);
    RotationsAdd(cubes[0], v, fuel);
    forall j | 0 <= j < |cubes|
      ensures Rotated(moved, fuel, k)[j] == Add(Rotated(cubes, fuel, k)[j], Rotations(v, fuel)[k])
    {
      RotationsAdd(cubes[j], v, fuel);
    }
  }

  /** A solid does not depend on where its cubes are: moving every cube by
      the same vector gives the same avatars, hence the same Solid. */
  lemma SolidMoved(cubes: seq<Cube>, v: seq<int>, fuel: nat)
    requires cubes != [] && Dimension(cubes, |v|)
    ensures Moved(cubes, v) != [] && Dimension(Moved(cubes, v), |Moved(cubes, v)[0]|)
    ensures MakeSolid(Moved(cubes, v), fuel) == MakeSolid(cubes, fuel)
  {
    var moved := Moved(cubes, v);
    RotationsShape(moved[0], cubes[0], fuel);
    forall k | 0 <= k < |Rotations(cubes[0], fuel)|
      ensures Avatars(moved, fuel)[k] == Avatars(cubes, fuel)[k]
    {
      RotatedMoved(cubes, v, fuel, k);
      MoveToOriginMoved(Rotated(cubes, fuel, k), Rotations(v, fuel)[k]);
    }
    assert Avatars(moved, fuel) == Avatars(cubes, fuel);
  }

  /** min(cube[d] for cube in cubes) depends only on the cubes present. */
  lemma MinimumMembers(a: seq<Cube>, b: seq<Cube>, d: nat)
    requires a != [] && Members(a) == Members(b)
    requires forall i :: 0 <= i < |a| ==> d < |a[i]|
    ensures b != [] && forall i :: 0 <= i < |b| ==> d < |b[i]|
    ensures Minimum(a, d) == Minimum(b, d)
  {
    assert a[0] in Members(b);
    forall i | 0 <= i < |b|
      ensures d < |b[i]|
    {
      assert b[i] in Members(a);
    }
    var i :| 0 <= i < |a| && a[i][d] == Minimum(a, d);
    var j :| 0 <= j < |b| && b[j][d] == Minimum(b, d);
    assert a[i] in Members(b) && b[j] in Members(a);
  }

  /** The cubes present after move_to_origin depend only on the cubes
      present before. */
  lemma MoveToOriginMembers(a: seq<Cube>, b: seq<Cube>)
    requires a != [] && Dimension(a, |a[0]|) && Members(a) == Members(b)
    ensures b != [] && Dimension(b, |b[0]|) && |b[0]| == |a[0]|
    ensures Members(MoveToOrigin(a)) == Members(MoveToOrigin(b))
  {
    var n := |a[0]|;
    assert a[0] in Members(b) && b[0] in Members(a);
    forall i | 0 <= i < |b|
      ensures |b[i]| == n
    {
      assert b[i] in Members(a);
    }
    var shift := seq(n, d requires 0 <= d < n => -Minimum(a, d));
    var shiftB := seq(n, d requires 0 <= d < n => -Minimum(b, d));
    forall d | 0 <= d < n
      ensures shift[d] == shiftB[d]
    {
      MinimumMembers(a, b, d);
    }
    assert shift == shiftB;
    var ma, mb := MoveToOrigin(a), MoveToOrigin(b);
    assert ma == Moved(a, shift);
    assert mb == Moved(b, shift);
    forall x | x in Members(ma)
      ensures x in Members(mb)
    {
      var i :| 0 <= i < |ma| && ma[i] == x;
      assert a[i] in Members(b);
      var j :| 0 <= j < |b| && b[j] == a[i];
      assert mb[j] == x;
    }
    forall x | x in Members(mb)
      ensures x in Members(ma)
    {
      var j :| 0 <= j < |mb| && mb[j] == x;
      assert b[j] in Members(a);
      var i :| 0 <= i < |a| && a[i] == b[j];
      assert ma[i] == x;
    }
  }

  /** Rotating the cubes present gives the cubes present after rotation. */
  lemma RotatedMembers(a: seq<Cube>, b: seq<Cube>, fuel: nat, k: nat)
    requires a != [] && Dimension(a, |a[0]|) && Members(a) == Members(b)
    requires k < |Rotations(a[0], fuel)|
    ensures b != [] && Dimension(b, |b[0]|) && |b[0]| == |a[0]| && k < |Rotations(b[0], fuel)|
    ensures Members(Rotated(a, fuel, k)) == Members(Rotated(b, fuel, k))
  {
    assert a[0] in Members(b) && b[0] in Members(a);
    forall i | 0 <= i < |b|
      ensures |b[i]| == |b[0]|
    {
      assert b[i] in Members(a);
    }
    RotationsShape(a[0], b[0], fuel);
    var ra, rb := Rotated(a, fuel, k), Rotated(b, fuel, k);
    forall x | x in Members(ra)
      ensures x in Members(rb)
    {
      var i :| 0 <= i < |ra| && ra[i] == x;
      assert a[i] in Members(b);
      var j :| 0 <= j < |b| && b[j] == a[i];
      assert rb[j] == x;
    }
    forall x | x in Members(rb)
      ensures x in Members(ra)
    {
      var j :| 0 <= j < |rb| && rb[j] == x;
      assert b[j] in Members(a);
      var i :| 0 <= i < |a| && a[i] == b[j];
      assert ra[i] == x;
    }
  }

  /** Avatar k, sorted, depends only on the cubes present. */
  lemma SortedAvatarMembers(a: seq<Cube>, b: seq<Cube>, fuel: nat, k: nat)
    requires a != [] && Dimension(a, |a[0]|) && Members(a) == Members(b)
    requires k < |Rotations(a[0], fuel)|
    ensures b != [] && Dimension(b, |b[0]|) && |b[0]| == |a[0]| && k < |SortedAvatars(b, fuel)|
    ensures SortedAvatars(a, fuel)[k] == SortedAvatars(b, fuel)[k]
  {
    RotatedMembers(a, b, fuel, k);
    RotationsShape(a[0], b[0], fuel);
    MoveToOriginMembers(Rotated(a, fuel, k), Rotated(b, fuel, k));
    var x, y := Avatars(a, fuel)[k], Avatars(b, fuel)[k];
    assert Members(SortCubes(x)) == Members(x);
    assert Members(SortCubes(y)) == Members(y);
    AscendingUnique(SortCubes(x), SortCubes(y));
  }

  /** The cubes of a solid depend only on which cubes it is given, not on
      their order nor on repeats. */
  lemma SolidMembers(a: seq<Cube>, b: seq<Cube>, fuel: nat)
    requires a != [] && Dimension(a, |a[0]|) && Members(a) == Members(b)
    ensures b != [] && Dimension(b, |b[0]|)
    ensures MakeSolid(a, fuel).cubes == MakeSolid(b, fuel).cubes
  {
    SortedAvatarMembers(a, b, fuel, 0);
    RotationsShape(a[0], b[0], fuel);
    var sa, sb := SortedAvatars(a, fuel), SortedAvatars(b, fuel);
    forall k | 0 <= k < |sa|
      ensures sa[k] == sb[k]
    {
      SortedAvatarMembers(a, b, fuel, k);
    }
    assert sa == sb;
  }

  // ---------------------------------------------------------------------
  // add_cube, __eq__, __hash__.

  /** The solids add_cube builds from the candidates: cubes + (new_cube,)
      for each candidate not among the cubes. */
  function NewCubes(cubes: seq<Cube>, candidates: seq<Cube>): seq<seq<Cube>>
  {
    if candidates == [] then []
    else (if candidates[0] in cubes then [] else [cubes + [candidates[0]]]) + NewCubes(cubes, candidates[1..])
  }

  /** The two loops of add_cube from cube i on. */
  function GrowFrom(cubes: seq<Cube>, i: nat): seq<seq<Cube>>
    decreases |cubes| - i
  {
    if i >= |cubes| then [] else NewCubes(cubes, Translations(cubes[i])) + GrowFrom(cubes, i + 1)
  }

  /** The cube lists add_cube hands to Solid, in its order. */
  function Extensions(cubes: seq<Cube>): seq<seq<Cube>>
  {
    GrowFrom(cubes, 0)
  }

  /** e is the cubes with one more cube, absent from them and adjacent to
      one of them. */
  predicate Extends(cubes: seq<Cube>, e: seq<Cube>, i: int)
  {
    |e| == |cubes| + 1 && e[..|cubes|] == cubes && e[|cubes|] !in cubes &&
    0 <= i < |cubes| && Adjacent(cubes[i], e[|cubes|])
  }

  /** e is the cubes grown by one cube next to one of them. */
  predicate Grows(cubes: seq<Cube>, e: seq<Cube>)
  {
    exists i :: 0 <= i < |cubes| && Extends(cubes, e, i)
  }

  lemma {:induction false} NewCubesMembers(cubes: seq<Cube>, candidates: seq<Cube>, e: seq<Cube>)
    ensures e in NewCubes(cubes, candidates) <==>
      |e| == |cubes| + 1 && e[..|cubes|] == cubes && e[|cubes|] !in cubes && e[|cubes|] in candidates
  {
    if candidates != [] {
      NewCubesMembers(cubes, candidates[1..], e);
      if |e| == |cubes| + 1 && e[..|cubes|] == cubes {
        assert e == cubes + [e[|cubes|]];
      }
    }
  }

  lemma {:induction false} GrowFromMembers(cubes: seq<Cube>, i: nat, e: seq<Cube>)
    decreases |cubes| - i
    ensures e in GrowFrom(cubes, i) <==> exists j :: i <= j && Extends(cubes, e, j)
  {
    if i < |cubes| {
      GrowFromMembers(cubes, i + 1, e);
      NewCubesMembers(cubes, Translations(cubes[i]), e);
      if e in NewCubes(cubes, Translations(cubes[i])) {
        assert Extends(cubes, e, i);
      }
      if Extends(cubes, e, i) {
        assert e[|cubes|] in Translations(cubes[i]);
      }
    }
  }

  /** add_cube tries exactly the cube lists with one more cube, absent from
      the solid and adjacent to one of its cubes. */
  lemma ExtensionsMembers(cubes: seq<Cube>, e: seq<Cube>)
    ensures e in Extensions(cubes) <==> Grows(cubes, e)
  {
    GrowFromMembers(cubes, 0, e);
  }

  /** An extension keeps the dimension of the cubes. */
  lemma ExtendsDimension(cubes: seq<Cube>, e: seq<Cube>, n: nat)
    requires Dimension(cubes, n) && e in Extensions(cubes)
    ensures e != [] && Dimension(e, n)
  {
    ExtensionsMembers(cubes, e);
    var i :| 0 <= i < |cubes| && Extends(cubes, e, i);
    var d :| 0 <= d < |cubes[i]| && StepAt(cubes[i], e[|cubes|], d);
    forall j | 0 <= j < |e|
      ensures |e[j]| == n
    {
      if j < |cubes| {
        assert e[j] == e[..|cubes|][j];
      }
    }
  }

  /** add_cube(solid): the Solid of each extension of its cubes, in order.
      Only solids built by Solid are asked, so the cubes are a non-empty
      list of one dimension. */
  function AddCube(solid: Solid, fuel: nat): (r: seq<Solid>)
    requires solid.cubes != [] && Dimension(solid.cubes, |solid.cubes[0]|)
    ensures |r| == |Extensions(solid.cubes)|
    ensures forall k :: 0 <= k < |r| ==> Grows(solid.cubes, Extensions(solid.cubes)[k])
    ensures forall k :: 0 <= k < |r| ==>
      var e := Extensions(solid.cubes)[k];
      e != [] && Dimension(e, |solid.cubes[0]|) && r[k] == MakeSolid(e, fuel)
  {
    var extensions := Extensions(solid.cubes);
    forall k | 0 <= k < |extensions|
      ensures extensions[k] != [] && Dimension(extensions[k], |solid.cubes[0]|)
      ensures Grows(solid.cubes, extensions[k])
    {
      ExtendsDimension(solid.cubes, extensions[k], |solid.cubes[0]|);
      ExtensionsMembers(solid.cubes, extensions[k]);
    }
    var r := seq(|extensions|, k requires 0 <= k < |extensions| => MakeSolid(extensions[k], fuel));
    assert forall k :: 0 <= k < |r| ==> r[k] == MakeSolid(extensions[k], fuel);
    r
  }

  /** Solid.__eq__: other is a solid, not None, with the same cubes. */
  predicate Equal(solid: Solid, other: Option<Solid>)
  {
    other.Some? && solid.cubes == other.value.cubes
  }

  /** Solid.__ne__. */
  predicate NotEqual(solid: Solid, other: Option<Solid>)
  {
    !Equal(solid, other)
  }

  /** Solid.__hash__: the hash of the cubes, for a given hash of lists. */
  function Hash(hash: seq<Cube> -> int, solid: Solid): int
  {
    hash(solid.cubes)
  }

  /** The set of solids in main keeps one of each: the same cubes moved or
      listed in another order give an equal solid with the same hash. */
  lemma SameSolid(a: seq<Cube>, b: seq<Cube>, v: seq<int>, fuel: nat, hash: seq<Cube> -> int)
    requires a != [] && Dimension(a, |v|) && Members(Moved(a, v)) == Members(b)
    ensures b != [] && Dimension(b, |b[0]|)
    ensures Equal(MakeSolid(a, fuel), Some(MakeSolid(b, fuel))) && !NotEqual(MakeSolid(b, fuel), Some(MakeSolid(a, fuel)))
    ensures Hash(hash, MakeSolid(a, fuel)) == Hash(hash, MakeSolid(b, fuel))
  {
    SolidMoved(a, v, fuel);
    SolidMembers(Moved(a, v), b, fuel);
  }
}
