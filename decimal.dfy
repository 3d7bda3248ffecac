/** Decimal notation of naturals, as Python's str() writes them, and the
    characters '0'..'9' (string.digits). */
module Decimal {

  predicate IsDigit(c: char)
  {
    '0' <= c <= '9'
  }

  predicate AllDigits(s: string)
  {
    forall i :: 0 <= i < |s| ==> IsDigit(s[i])
  }

  function DigitChar(d: nat): (c: char)
    requires d < 10
    ensures IsDigit(c)
  {
    ('0' as int + d) as char
  }

  function DigitValue(c: char): (d: nat)
    requires IsDigit(c)
    ensures d < 10 && DigitChar(d) == c
  {
    (c as int - '0' as int) as nat
  }

  /** str(n) for a natural n: no leading zero, at least one digit. */
  function Str(n: nat): (s: string)
    ensures AllDigits(s)
  {
    if n < 10 then [DigitChar(n)] else Str(n / 10) + [DigitChar(n % 10)]
  }

  /** str(n) is a non-empty digit string, a single digit exactly for n < 10,
      with no leading zero when n >= 1. */
  lemma {:induction false} StrShape(n: nat)
    ensures |Str(n)| >= 1
    ensures (|Str(n)| == 1) == (n < 10)
    ensures n >= 1 ==> Str(n)[0] != '0'
  {
    if n >= 10 {
      StrShape(n / 10);
    }
  }

  /** The value of a string of decimal digits (int(s) for a digit string). */
  function Value(s: string): nat
    requires AllDigits(s)
  {
    if s == [] then 0 else 10 * Value(s[..|s| - 1]) + DigitValue(s[|s| - 1])
  }

  lemma {:induction false} ValueOfStr(n: nat)
    ensures Value(Str(n)) == n
  {
    var s := Str(n);
    if n >= 10 {
      ValueOfStr(n / 10);
      assert s[..|s| - 1] == Str(n / 10);
    }
  }

  /** Concatenating digit strings multiplies the value of the left part. */
  lemma {:induction false} ValueAppend(s: string, t: string)
    requires AllDigits(s) && AllDigits(t)
    ensures AllDigits(s + t)
    ensures Value(s + t) == Value(s) * Pow10(|t|) + Value(t)
  {
    assert AllDigits(s + t) by {
      forall i | 0 <= i < |s + t| ensures IsDigit((s + t)[i]) {
        if i < |s| { assert (s + t)[i] == s[i]; } else { assert (s + t)[i] == t[i - |s|]; }
      }
    }
    if t != [] {
      var u := s + t;
      var t' := t[..|t| - 1];
      assert AllDigits(t');
      assert u[..|u| - 1] == s + t';
      ValueAppend(s, t');
      var a, p, v, d := Value(s), Pow10(|t'|), Value(t'), DigitValue(t[|t| - 1]);
      assert Value(u) == 10 * Value(s + t') + d;
      assert Value(s + t') == a * p + v;
      ShiftDigit(a, p, v, d);
      assert Value(t) == 10 * v + d;
      assert Pow10(|t|) == 10 * p;
    } else {
      assert s + t == s;
    }
  }

  lemma ShiftDigit(a: int, p: int, v: int, d: int)
    ensures 10 * (a * p + v) + d == a * (10 * p) + (10 * v + d)
  {
  }

  function Pow10(e: nat): (r: nat)
    ensures r >= 1
  {
    if e == 0 then 1 else 10 * Pow10(e - 1)
  }

  /** A digit string of length L has a value below 10^L, and at least
      10^(L-1) when it does not start with '0'. */
  lemma {:induction false} ValueBounds(s: string)
    requires AllDigits(s)
    ensures Value(s) < Pow10(|s|)
    ensures |s| >= 1 && s[0] != '0' ==> Value(s) >= Pow10(|s| - 1)
  {
    if s != [] {
      var p := s[..|s| - 1];
      ValueBounds(p);
      if |s| >= 2 && s[0] != '0' {
        assert p[0] == s[0];
      }
    }
  }

  lemma {:induction false} StrLengthBounds(n: nat)
    ensures Pow10(|Str(n)| - 1) <= n < Pow10(|Str(n)|) || n == 0
  {
    ValueOfStr(n);
    StrShape(n);
    ValueBounds(Str(n));
  }

  lemma {:induction false} Pow10Monotone(a: nat, b: nat)
    requires a <= b
    ensures Pow10(a) <= Pow10(b)
  {
    if a < b {
      Pow10Monotone(a, b - 1);
    }
  }

  /** A natural with 10^(L-1) <= n < 10^L is written with exactly L digits. */
  lemma DigitCountUnique(n: nat, L: nat)
    requires L >= 1 && Pow10(L - 1) <= n < Pow10(L)
    ensures |Str(n)| == L
  {
    StrLengthBounds(n);
    var k := |Str(n)|;
    if k < L {
      Pow10Monotone(k, L - 1);
    } else if k > L {
      Pow10Monotone(L, k - 1);
    }
  }
}
