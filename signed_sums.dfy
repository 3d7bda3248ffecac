/** "Atteindre 12, variante": dice are thrown one by one until some choice
    of signs in front of the throws adds up to the target. The throws, which
    the script draws at random, are a parameter here. */
module SignedSums {
  import opened Numbers
  import opened Options

  /** verif(l, nb): whether nb can be written as a signed sum of l, peeling
      the last entry off first. */
  function Verif(l: seq<int>, nb: int): bool
    decreases |l|
  {
    if l == [] then nb == 0
    else
      var init, last := l[..|l| - 1], l[|l| - 1];
      Verif(init, nb - last) || Verif(init, nb + last)
  }

  /** The sum of l with the given signs: true is plus, false is minus. */
  function SignedSum(l: seq<int>, signs: seq<bool>): int
    requires |signs| == |l|
    decreases |l|
  {
    if l == [] then 0
    else
      var k := |l| - 1;
      SignedSum(l[..k], signs[..k]) + (if signs[k] then l[k] else -l[k])
  }

  /** verif answers exactly whether some choice of signs gives nb. */
  lemma {:induction false} VerifIffSigns(l: seq<int>, nb: int)
    ensures Verif(l, nb) <==> exists signs :: |signs| == |l| && SignedSum(l, signs) == nb
    decreases |l|
  {
    if l == [] {
      assert SignedSum([], []) == 0;
    } else {
      var k := |l| - 1;
      var init, x := l[..k], l[k];
      VerifIffSigns(init, nb - x);
      VerifIffSigns(init, nb + x);
      if Verif(l, nb) {
        if Verif(init, nb - x) {
          var signs :| |signs| == k && SignedSum(init, signs) == nb - x;
          var all := signs + [true];
          assert all[..k] == signs;
          assert SignedSum(l, all) == nb;
        } else {
          var signs :| |signs| == k && SignedSum(init, signs) == nb + x;
          var all := signs + [false];
          assert all[..k] == signs;
          assert SignedSum(l, all) == nb;
        }
      } else {
        forall signs | |signs| == |l|
          ensures SignedSum(l, signs) != nb
        {
          var rest := SignedSum(init, signs[..k]);
          if signs[k] {
            assert rest != nb - x;
          } else {
            assert rest != nb + x;
          }
        }
      }
    }
  }

  /** Flipping every sign: nb is reachable exactly when -nb is. */
  lemma {:induction false} VerifSymmetric(l: seq<int>, nb: int)
    ensures Verif(l, nb) == Verif(l, -nb)
    decreases |l|
  {
    if l != [] {
      var init, x := l[..|l| - 1], l[|l| - 1];
      VerifSymmetric(init, nb - x);
      VerifSymmetric(init, nb + x);
      assert -nb - x == -(nb + x) && -nb + x == -(nb - x);
    }
  }

  /** The absolute values of every signed sum of l: the set suite_2 keeps. */
  function AbsSums(l: seq<int>): set<nat>
  {
    set s | s in SignedValues(l) :: Abs(s)
  }

  /** Every value verif accepts for l, built the same way as verif. */
  function SignedValues(l: seq<int>): (r: set<int>)
    decreases |l|
  {
    if l == [] then {0}
    else
      var before, x := SignedValues(l[..|l| - 1]), l[|l| - 1];
      (set s | s in before :: s - x) + (set s | s in before :: s + x)
  }

  lemma {:induction false} SignedValuesVerif(l: seq<int>, nb: int)
    ensures nb in SignedValues(l) <==> Verif(l, nb)
    decreases |l|
  {
    if l != [] {
      var init, x := l[..|l| - 1], l[|l| - 1];
      SignedValuesVerif(init, nb - x);
      SignedValuesVerif(init, nb + x);
      assert nb == (nb + x) - x && nb == (nb - x) + x;
    }
  }

  /** The new set of suite_2 after throwing x. */
  function Update(numbers: set<nat>, x: nat): set<nat>
  {
    (set n | n in numbers :: Abs(n - x)) + (set n | n in numbers :: n + x)
  }

  /** The update of suite_2: from the absolute sums of l, those of l + [x]
      are |n - x| and n + x for every n. It relies on the symmetry: both s
      and -s are signed sums. */
  lemma AbsStep(l: seq<int>, x: int)
    requires x >= 0
    ensures AbsSums(l + [x]) == Update(AbsSums(l), x)
  {
    var left := AbsSums(l + [x]);
    var right := (set n | n in AbsSums(l) :: Abs(n - x)) + (set n | n in AbsSums(l) :: n + x);
    forall v | v in left
      ensures v in right
    {
      AbsStepOut(l, x, v);
    }
    forall v | v in right
      ensures v in left
    {
      var n :| n in AbsSums(l) && (v == Abs(n - x) || v == n + x);
      AbsStepIn(l, x, n);
    }
  }

  /** Every new absolute sum comes from an old one. */
  lemma AbsStepOut(l: seq<int>, x: int, v: nat)
    requires x >= 0 && v in AbsSums(l + [x])
    ensures exists n :: n in AbsSums(l) && (v == Abs(n - x) || v == n + x)
  {
    var t := l + [x];
    assert t[..|t| - 1] == l;
    var u :| u in SignedValues(t) && v == Abs(u);
    var s :| s in SignedValues(l) && (u == s - x || u == s + x);
    assert Abs(s) in AbsSums(l);
    assert v == Abs(Abs(s) - x) || v == Abs(s) + x;
  }

  /** Every old absolute sum gives both new ones. */
  lemma AbsStepIn(l: seq<int>, x: int, n: nat)
    requires x >= 0 && n in AbsSums(l)
    ensures Abs(n - x) in AbsSums(l + [x]) && n + x in AbsSums(l + [x])
  {
    var t := l + [x];
    assert t[..|t| - 1] == l;
    var s :| s in SignedValues(l) && n == Abs(s);
    SignedValuesVerif(l, s);
    VerifSymmetric(l, s);
    SignedValuesVerif(l, -s);
    assert n in SignedValues(l);
    assert n - x in SignedValues(t) && n + x in SignedValues(t);
  }

  /** Throws are dice: 1 to 6. */
  predicate Dice(draws: seq<int>)
  {
    forall i :: 0 <= i < |draws| ==> 1 <= draws[i] <= 6
  }

  /** suite(nb): throw until verif accepts the throws so far. The result is
      the number of throws used; None when the given throws run out first
      (the source would keep throwing). */
  method Suite(nb: int, draws: seq<int>) returns (r: Option<nat>)
    requires Dice(draws)
    ensures r.Some? ==> r.value <= |draws| && Verif(draws[..r.value], nb)
    ensures r.Some? ==> forall j :: 0 <= j < r.value ==> !Verif(draws[..j], nb)
    ensures r.None? ==> forall j :: 0 <= j <= |draws| ==> !Verif(draws[..j], nb)
  {
    var k := 0;
    while !Verif(draws[..k], nb)
      invariant k <= |draws|
      invariant forall j :: 0 <= j < k ==> !Verif(draws[..j], nb)
      decreases |draws| - k
    {
      if k == |draws| {
        return None;
      }
      k := k + 1;
    }
    return Some(k);
  }

  /** suite_2(nb): the same search, keeping only the set of absolute signed
      sums and updating it one throw at a time. It stops on exactly the
      same throw as suite. */
  method Suite2(nb: int, draws: seq<int>) returns (r: Option<nat>)
    requires Dice(draws)
    ensures r.Some? ==> r.value <= |draws| && Verif(draws[..r.value], nb)
    ensures r.Some? ==> forall j :: 0 <= j < r.value ==> !Verif(draws[..j], nb)
    ensures r.None? ==> forall j :: 0 <= j <= |draws| ==> !Verif(draws[..j], nb)
  {
    var target := Abs(nb);
    var numbers: set<nat> := {0};
    var k := 0;
    assert AbsSums([]) == {0};
    AbsReach(draws[..0], nb);
    while target !in numbers
      invariant k <= |draws|
      invariant numbers == AbsSums(draws[..k])
      invariant target in numbers <==> Verif(draws[..k], nb)
      invariant forall j :: 0 <= j < k ==> !Verif(draws[..j], nb)
      decreases |draws| - k
    {
      if k == |draws| {
        return None;
      }
      var number := draws[k];
      ThrowStep(draws, k, nb);
      numbers := Update(numbers, number);
      k := k + 1;
    }
    return Some(k);
  }

  /** One throw of suite_2 keeps its set equal to the absolute signed sums,
      and the stop test equal to verif. */
  lemma ThrowStep(draws: seq<int>, k: nat, nb: int)
    requires k < |draws| && draws[k] >= 0
    ensures AbsSums(draws[..k + 1]) == Update(AbsSums(draws[..k]), draws[k])
    ensures Abs(nb) in AbsSums(draws[..k + 1]) <==> Verif(draws[..k + 1], nb)
  {
    AbsStep(draws[..k], draws[k]);
    assert draws[..k + 1] == draws[..k] + [draws[k]];
    AbsReach(draws[..k + 1], nb);
  }

  /** |nb| is an absolute signed sum exactly when verif accepts nb. */
  lemma AbsReach(l: seq<int>, nb: int)
    ensures Abs(nb) in AbsSums(l) <==> Verif(l, nb)
  {
    SignedValuesVerif(l, nb);
    SignedValuesVerif(l, -nb);
    VerifSymmetric(l, nb);
    if Abs(nb) in AbsSums(l) {
      var s :| s in SignedValues(l) && Abs(nb) == Abs(s);
      assert s == nb || s == -nb;
    }
  }
}
