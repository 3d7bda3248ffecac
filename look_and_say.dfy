/** "Suite": Conway's look-and-say sequence. Each term reads the previous
    one aloud, run by run: the length of each maximal run of equal
    characters, in decimal, followed by the character. */
module LookAndSay {
  import opened Decimal

  /** A run of `count` copies of `ch`. */
  datatype Run = Run(count: nat, ch: char)

  /** The number of leading characters equal to the first one. */
  function LeadLength(s: string): (k: nat)
    requires s != []
    ensures 1 <= k <= |s|
    ensures forall i :: 0 <= i < k ==> s[i] == s[0]
    ensures k < |s| ==> s[k] != s[0]
    decreases |s|
  {
    if |s| == 1 || s[1] != s[0] then 1 else 1 + LeadLength(s[1..])
  }

  /** itertools.groupby(s): the maximal runs of equal characters, in order. */
  function Runs(s: string): (rs: seq<Run>)
    ensures |rs| <= |s| && (rs == [] <==> s == [])
    decreases |s|
  {
    if s == [] then []
    else
      var k := LeadLength(s);
      [Run(k, s[0])] + Runs(s[k..])
  }

  /** `k` copies of `c`. */
  function Repeat(k: nat, c: char): (r: string)
    ensures |r| == k && forall i :: 0 <= i < k ==> r[i] == c
  {
    seq(k, _ => c)
  }

  /** The string a list of runs stands for. */
  function Expand(rs: seq<Run>): string
  {
    if rs == [] then "" else Repeat(rs[0].count, rs[0].ch) + Expand(rs[1..])
  }

  /** No run is empty and two neighbouring runs have different characters. */
  predicate Maximal(rs: seq<Run>)
  {
    (forall i :: 0 <= i < |rs| ==> rs[i].count >= 1)
    && (forall i :: 0 <= i < |rs| - 1 ==> rs[i].ch != rs[i + 1].ch)
  }

  /** groupby splits the string into maximal runs that spell it back. */
  lemma {:induction false} RunsExpand(s: string)
    ensures Expand(Runs(s)) == s
    ensures Maximal(Runs(s))
    ensures s != [] ==> Runs(s) != [] && Runs(s)[0].ch == s[0]
    decreases |s|
  {
    if s != [] {
      var k := LeadLength(s);
      RunsExpand(s[k..]);
      RunsStep(s, k, s[k..]);
    }
  }

  /** The inductive step of RunsExpand: the leading run in front of the
      runs of the rest. */
  lemma RunsStep(s: string, k: nat, rest: string)
    requires s != [] && k == LeadLength(s) && rest == s[k..]
    requires Expand(Runs(rest)) == rest && Maximal(Runs(rest))
    requires rest != [] ==> Runs(rest) != [] && Runs(rest)[0].ch == rest[0]
    ensures Expand(Runs(s)) == s && Maximal(Runs(s)) && Runs(s) != [] && Runs(s)[0].ch == s[0]
  {
    assert Runs(s) == [Run(k, s[0])] + Runs(rest);
    RunsCons(Run(k, s[0]), Runs(rest));
    LeadSplit(s, k, rest);
  }

  /** The string is its leading run followed by the rest. */
  lemma LeadSplit(s: string, k: nat, rest: string)
    requires s != [] && k == LeadLength(s) && rest == s[k..]
    ensures Repeat(k, s[0]) + rest == s
  {
    assert Repeat(k, s[0]) == s[..k];
    assert s[..k] + s[k..] == s;
  }

  /** A run put in front of maximal runs that start with another character. */
  lemma RunsCons(r: Run, rs: seq<Run>)
    requires Maximal(rs) && r.count >= 1 && (rs == [] || rs[0].ch != r.ch)
    ensures Maximal([r] + rs)
    ensures Expand([r] + rs) == Repeat(r.count, r.ch) + Expand(rs)
  {
    assert ([r] + rs)[1..] == rs;
  }

  /** A maximal list of runs starts with the character of its first run. */
  lemma ExpandStart(rs: seq<Run>)
    requires Maximal(rs) && rs != []
    ensures Expand(rs) != [] && Expand(rs)[0] == rs[0].ch
  {
  }

  lemma MaximalTail(rs: seq<Run>)
    requires Maximal(rs) && rs != []
    ensures Maximal(rs[1..])
  {
    forall i | 0 <= i < |rs[1..]| - 1
      ensures rs[1..][i].ch != rs[1..][i + 1].ch
    {
      assert rs[1..][i] == rs[i + 1] && rs[1..][i + 1] == rs[i + 2];
    }
  }

  /** The maximal runs of a string are unique: any maximal list of runs
      that spells `s` is the one groupby gives. */
  lemma {:induction false} RunsUnique(rs: seq<Run>, s: string)
    requires Maximal(rs) && Expand(rs) == s
    ensures rs == Runs(s)
    decreases |rs|
  {
    if rs != [] {
      var k, c := rs[0].count, rs[0].ch;
      var rest := Expand(rs[1..]);
      assert s == Repeat(k, c) + rest;
      MaximalTail(rs);
      if k < |s| {
        assert rs[1..] != [];
        ExpandStart(rs[1..]);
        assert s[k] == rest[0] != c;
      }
      assert LeadLength(s) == k;
      assert s[k..] == rest;
      RunsUnique(rs[1..], rest);
    }
  }

  /** One run read aloud: str(len) followed by the character. */
  function Say(r: Run): (t: string)
    ensures |t| >= 2 && t[|t| - 1] == r.ch && AllDigits(t[..|t| - 1])
    ensures |t| == 2 <==> r.count < 10
  {
    StrShape(r.count);
    assert (Str(r.count) + [r.ch])[..|Str(r.count)|] == Str(r.count);
    Str(r.count) + [r.ch]
  }

  function SayAll(rs: seq<Run>): string
  {
    if rs == [] then "" else Say(rs[0]) + SayAll(rs[1..])
  }

  /** The term after `s`: every run of `s` read aloud, in order. */
  function Next(s: string): (t: string)
    ensures |t| >= 2 * |Runs(s)|
    ensures s == [] <==> t == []
  {
    SaidLength(Runs(s));
    SayAll(Runs(s))
  }

  /** gen_conway(seed): the term number n, the seed being number 0. */
  function Term(seed: string, n: nat): (t: string)
    ensures t == [] <==> seed == []
  {
    if n == 0 then seed else Next(Term(seed, n - 1))
  }

  /** Reads a string as (count digit, character) pairs, the inverse of the
      reading aloud when every run is shorter than ten. */
  function Decode(t: string): string
    decreases |t|
  {
    if |t| < 2 then ""
    else (if IsDigit(t[0]) then Repeat(DigitValue(t[0]), t[1]) else "") + Decode(t[2..])
  }

  lemma {:induction false} DecodeSaid(rs: seq<Run>)
    requires forall i :: 0 <= i < |rs| ==> rs[i].count < 10
    ensures |SayAll(rs)| == 2 * |rs|
    ensures Decode(SayAll(rs)) == Expand(rs)
    decreases |rs|
  {
    if rs != [] {
      var r := rs[0];
      assert Str(r.count) == [DigitChar(r.count)];
      var t := SayAll(rs);
      assert t == [DigitChar(r.count), r.ch] + SayAll(rs[1..]);
      assert t[2..] == SayAll(rs[1..]);
      DecodeSaid(rs[1..]);
    }
  }

  /** When every run is shorter than ten, the next term has two characters
      per run, so an even length, and reading it as (count, character)
      pairs gives the term back. */
  lemma NextReadsBack(s: string)
    requires forall i :: 0 <= i < |Runs(s)| ==> Runs(s)[i].count < 10
    ensures |Next(s)| == 2 * |Runs(s)|
    ensures Decode(Next(s)) == s
  {
    DecodeSaid(Runs(s));
    RunsExpand(s);
  }

  /** The term after `s` is never shorter than two characters per run. */
  lemma {:induction false} SaidLength(rs: seq<Run>)
    ensures |SayAll(rs)| >= 2 * |rs|
    decreases |rs|
  {
    if rs != [] {
      SaidLength(rs[1..]);
    }
  }

  /** The terms from "1": "1", "11", "21", "1211". */
  lemma FirstTerms()
    ensures Term("1", 1) == "11" && Term("1", 2) == "21" && Term("1", 3) == "1211"
  {
    assert Runs("1") == [Run(1, '1')];
    assert Term("1", 1) == "11";
    assert Runs("11") == [Run(2, '1')] by {
      assert LeadLength("11") == 2;
      assert "11"[2..] == "";
    }
    assert Term("1", 2) == "21";
    assert Runs("21") == [Run(1, '2'), Run(1, '1')] by {
      assert LeadLength("21") == 1;
      assert "21"[1..] == "1";
    }
  }
}
