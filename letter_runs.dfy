/** "Chaîne de caractères et algo": every digit of a message is kept and
    every other character is replaced by its 1-based position inside its
    run of non-digits, so "6930A85CDU744ZABR09" becomes "6930185123744123409".
    The script gives six implementations; each is modelled here and shown to
    compute the same reference function `Replaced`. */
module LetterRuns {
  import opened Options
  import opened Decimal

  /** Number of non-digits at the end of `s`: the position of its last
      character inside its run of non-digits. */
  function Trailing(s: string): (k: nat)
    ensures k <= |s|
  {
    if s == [] || IsDigit(s[|s| - 1]) then 0 else Trailing(s[..|s| - 1]) + 1
  }

  /** The reference rewriting, one character at a time from the left. */
  function Replaced(s: string): string
  {
    if s == [] then ""
    else if IsDigit(s[|s| - 1]) then Replaced(s[..|s| - 1]) + [s[|s| - 1]]
    else Replaced(s[..|s| - 1]) + Str(Trailing(s))
  }

  /** str(1) + str(2) + ... + str(k), what a run of k non-digits becomes. */
  function Counting(k: nat): string
  {
    if k == 0 then "" else Counting(k - 1) + Str(k)
  }

  /** "12...k" is a digit string, and it starts with '1' when k >= 1. */
  lemma {:induction false} CountingShape(k: nat)
    ensures AllDigits(Counting(k))
    ensures k >= 1 ==> |Counting(k)| >= 1 && Counting(k)[0] == '1'
  {
    if k >= 1 {
      CountingShape(k - 1);
      ValueAppend(Counting(k - 1), Str(k));
    }
  }

  /** The output only holds decimal digits. */
  lemma {:induction false} ReplacedDigits(s: string)
    ensures AllDigits(Replaced(s))
  {
    if s != [] {
      ReplacedDigits(s[..|s| - 1]);
    }
  }

  /** Each character becomes at least one digit; the output is exactly as
      long as the input iff no run of non-digits reaches ten characters. */
  lemma {:induction false} ReplacedLength(s: string)
    ensures |Replaced(s)| >= |s|
    ensures |Replaced(s)| == |s| <==> forall i :: 0 < i <= |s| ==> Trailing(s[..i]) < 10
  {
    if s != [] {
      var s' := s[..|s| - 1];
      ReplacedLength(s');
      var grown := |Replaced(s)| - |Replaced(s')|;
      if IsDigit(s[|s| - 1]) {
        assert grown == 1 && Trailing(s) == 0;
      } else {
        StrShape(Trailing(s));
        assert grown == |Str(Trailing(s))|;
      }
      assert grown >= 1 && (grown == 1 <==> Trailing(s) < 10);
      assert s[..|s|] == s;
      forall i | 0 < i <= |s'| ensures s'[..i] == s[..i] {}
    }
  }

  /** Where `s` meets `t` a digit stands on one side, so the runs of
      non-digits of `t` do not continue those of `s`. */
  predicate Boundary(s: string, t: string)
  {
    s == [] || IsDigit(s[|s| - 1]) || (t != [] && IsDigit(t[0]))
  }

  lemma {:induction false} TrailingAfterBoundary(s: string, t: string)
    requires Boundary(s, t)
    ensures Trailing(s + t) == Trailing(t)
  {
    if t == [] {
      assert s + t == s;
    } else {
      var t' := t[..|t| - 1];
      assert (s + t)[..|s + t| - 1] == s + t';
      if !IsDigit(t[|t| - 1]) {
        TrailingAfterBoundary(s, t');
      }
    }
  }

  /** Rewriting distributes over a concatenation at a boundary. */
  lemma {:induction false} ReplacedAppend(s: string, t: string)
    requires t == [] || Boundary(s, t)
    ensures Replaced(s + t) == Replaced(s) + Replaced(t)
  {
    if t == [] {
      assert s + t == s;
    } else {
      var t' := t[..|t| - 1];
      var c := t[|t| - 1];
      assert (s + t)[..|s + t| - 1] == s + t' && (s + t)[|s + t| - 1] == c;
      TrailingAfterBoundary(s, t);
      var tail := if IsDigit(c) then [c] else Str(Trailing(t));
      assert Replaced(s + t) == Replaced(s + t') + tail;
      assert Replaced(t) == Replaced(t') + tail;
      if t' != [] {
        assert t'[0] == t[0];
        ReplacedAppend(s, t');
      } else {
        assert s + t' == s && Replaced(t') == [];
      }
      ConcatAssoc(Replaced(s), Replaced(t'), tail);
    }
  }

  /** A run of digits is copied. */
  lemma {:induction false} ReplacedDigitRun(s: string)
    requires AllDigits(s)
    ensures Replaced(s) == s
  {
    if s != [] {
      ReplacedDigitRun(s[..|s| - 1]);
    }
  }

  /** A run of k non-digits becomes "12...k". */
  lemma {:induction false} ReplacedLetterRun(s: string)
    requires forall i :: 0 <= i < |s| ==> !IsDigit(s[i])
    ensures Trailing(s) == |s|
    ensures Replaced(s) == Counting(|s|)
  {
    if s != [] {
      ReplacedLetterRun(s[..|s| - 1]);
    }
  }

  /** A run `t`, all digits or all non-digits, rewritten after `s`. */
  lemma AppendRun(s: string, t: string, digits: bool)
    requires forall j :: 0 <= j < |t| ==> IsDigit(t[j]) == digits
    requires t == [] || Boundary(s, t)
    ensures Replaced(s + t) == Replaced(s) + (if digits then t else Counting(|t|))
  {
    ReplacedAppend(s, t);
    if digits {
      ReplacedDigitRun(t);
    } else {
      ReplacedLetterRun(t);
    }
  }

  /** The run m[start..end] rewritten after the part before it. */
  lemma ReplacedRun(m: string, start: nat, end: nat, digits: bool)
    requires start <= end <= |m|
    requires forall j :: start <= j < end ==> IsDigit(m[j]) == digits
    requires start == 0 || end == start || IsDigit(m[start - 1]) != IsDigit(m[start])
    ensures Replaced(m[..end]) == Replaced(m[..start]) + (if digits then m[start..end] else Counting(end - start))
  {
    var s, t := m[..start], m[start..end];
    assert m[..end] == s + t;
    assert t == [] || Boundary(s, t) by {
      if start > 0 && end > start {
        assert s[|s| - 1] == m[start - 1] && t[0] == m[start];
      }
    }
    AppendRun(s, t, digits);
  }

  /** One more character of the message: what it adds to the output, and the
      new position inside the current run of non-digits. */
  lemma ReplacedStep(m: string, i: nat)
    requires i < |m|
    ensures Trailing(m[..i + 1]) == if IsDigit(m[i]) then 0 else Trailing(m[..i]) + 1
    ensures Replaced(m[..i + 1]) == Replaced(m[..i]) + (if IsDigit(m[i]) then [m[i]] else Str(Trailing(m[..i]) + 1))
  {
    assert m[..i + 1][..i] == m[..i];
  }

  // ---------------------------------------------------------------------
  // replace_letters_2: groupby over digit / non-digit runs

  /** Length of the run that starts the (non-empty) string. */
  function RunLength(s: string): (r: nat)
    requires s != []
    ensures 1 <= r <= |s|
    ensures forall i :: 0 <= i < r ==> IsDigit(s[i]) == IsDigit(s[0])
    ensures r < |s| ==> IsDigit(s[r]) != IsDigit(s[0])
  {
    if |s| == 1 || IsDigit(s[1]) != IsDigit(s[0]) then 1 else 1 + RunLength(s[1..])
  }

  /** replace_letters_2: a digit group is copied, a group of k non-digits
      becomes "12...k". */
  function ReplaceLetters2(s: string): string
    decreases |s|
  {
    if s == [] then ""
    else
      var r := RunLength(s);
      (if IsDigit(s[0]) then s[..r] else Counting(r)) + ReplaceLetters2(s[r..])
  }

  /** The run-by-run rewriting and the character-by-character one agree. */
  lemma {:induction false} ReplaceLetters2Agrees(s: string)
    ensures ReplaceLetters2(s) == Replaced(s)
    decreases |s|
  {
    if s != [] {
      var r := RunLength(s);
      var a, b := s[..r], s[r..];
      assert s == a + b;
      ReplaceLetters2Agrees(b);
      if IsDigit(s[0]) {
        ReplacedDigitRun(a);
      } else {
        ReplacedLetterRun(a);
      }
      if b != [] {
        assert b[0] == s[r];
        ReplacedAppend(a, b);
      } else {
        assert s == a;
      }
    }
  }

  /** validate(): the example message and its expected rewriting. */
  lemma Validate()
    ensures Replaced("6930A85CDU744ZABR09") == "6930185123744123409"
  {
    SmallCounts();
    ValidateMiddle();
    ValidateRun("6930A85CDU744", "ZABR", false, "6930185123744", "6930A85CDU744ZABR", "69301851237441234");
    ValidateRun("6930A85CDU744ZABR", "09", true, "69301851237441234", "6930A85CDU744ZABR09", "6930185123744123409");
  }

  /** The example message up to its third run of digits. */
  lemma ValidateMiddle()
    ensures Replaced("6930A85CDU744") == "6930185123744"
  {
    SmallCounts();
    ValidateStart();
    ValidateRun("6930A85", "CDU", false, "6930185", "6930A85CDU", "6930185123");
    ValidateRun("6930A85CDU", "744", true, "6930185123", "6930A85CDU744", "6930185123744");
  }

  /** The example message up to its second run of digits. */
  lemma ValidateStart()
    ensures Replaced("6930A85") == "6930185"
  {
    ReplacedDigitRun("6930");
    ValidateRun("6930", "A", false, "6930", "6930A", "69301");
    ValidateRun("6930A", "85", true, "69301", "6930A85", "6930185");
  }

  /** The rewritings of the runs of one to four non-digits. */
  lemma SmallCounts()
    ensures Counting(1) == "1" && Counting(2) == "12" && Counting(3) == "123" && Counting(4) == "1234"
  {
    assert Counting(1) == "1";
    CountingSucc(1);
    CountingSucc(2);
    CountingSucc(3);
  }

  /** One run of the example message: `s` is rewritten as `r`, so `s + t` as `r2`. */
  lemma ValidateRun(s: string, t: string, digits: bool, r: string, st: string, r2: string)
    requires 1 <= |t| <= 4 && |s| >= 1
    requires forall j :: 0 <= j < |t| ==> IsDigit(t[j]) == digits
    requires IsDigit(s[|s| - 1]) != digits
    requires Replaced(s) == r && st == s + t
    requires r2 == r + (if digits then t else Counting(|t|))
    ensures Replaced(st) == r2
  {
    AppendRun(s, t, digits);
  }

  // ---------------------------------------------------------------------
  // replace_letters, flight, replace_letters_3: single-pass loops

  /** replace_letters: the distance to the last digit seen. */
  method ReplaceLetters(message: string) returns (modified: string)
    ensures modified == Replaced(message)
  {
    modified := "";
    var lastDigitIndex := -1;
    for i := 0 to |message|
      invariant modified == Replaced(message[..i])
      invariant lastDigitIndex == i - 1 - Trailing(message[..i])
    {
      var c := message[i];
      ReplacedStep(message, i);
      if IsDigit(c) {
        modified := modified + [c];
        lastDigitIndex := i;
      } else {
        modified := modified + Str(i - lastDigitIndex);
      }
    }
    assert message[..|message|] == message;
  }

  /** flight: copy a run of digits, then write "12...k" for the run of k
      non-digits that follows. */
  method Flight(s: string) returns (z: string)
    ensures z == Replaced(s)
  {
    var n, i := |s|, 0;
    z := "";
    while i < n
      invariant 0 <= i <= n + 1
      invariant i <= n ==> z == Replaced(s[..i])
      invariant i == n + 1 ==> z == Replaced(s)
      invariant i == 0 || i >= n || IsDigit(s[i])
      invariant 0 < i < n ==> !IsDigit(s[i - 1])
      decreases n + 1 - i
    {
      var j := i;
      while j < n && IsDigit(s[j])
        invariant i <= j <= n
        invariant forall k :: i <= k < j ==> IsDigit(s[k])
      {
        j := j + 1;
      }
      ReplacedRun(s, i, j, true);
      z := z + s[i..j];
      i := j;
      while j < n && !IsDigit(s[j])
        invariant i <= j <= n
        invariant forall k :: i <= k < j ==> !IsDigit(s[k])
      {
        j := j + 1;
      }
      ReplacedRun(s, i, j, false);
      z := z + Counting(j - i);
      if i < j {
        i := j;
      } else {
        assert i == n;
        assert s[..n] == s;
        i := i + 1;
      }
    }
    if i == n {
      assert s[..n] == s;
    }
  }

  /** ''.join(chunks): the concatenation of a list of strings. */
  function Join(chunks: seq<string>): string
  {
    if chunks == [] then "" else Join(chunks[..|chunks| - 1]) + chunks[|chunks| - 1]
  }

  lemma JoinAppend(chunks: seq<string>, x: string)
    ensures Join(chunks + [x]) == Join(chunks) + x
  {
    assert (chunks + [x])[..|chunks|] == chunks;
  }

  /** State of replace_letters_3 after the first i characters: the flushed
      chunks, then the open run of digits or the count of the open run of
      non-digits, spell out the rewriting of that prefix. */
  ghost predicate CollectedUpTo(message: string, i: nat, chunks: seq<string>, currentDigits: string, count: nat)
  {
    i <= |message| && (currentDigits == [] || count == 0) && count == Trailing(message[..i]) &&
    Join(chunks) + currentDigits + Counting(count) == Replaced(message[..i])
  }

  /** A digit flushes the count, if any, and joins the open digits. */
  lemma CollectedDigit(message: string, i: nat, chunks: seq<string>, currentDigits: string, count: nat)
    requires CollectedUpTo(message, i, chunks, currentDigits, count) && i < |message| && IsDigit(message[i])
    ensures CollectedUpTo(message, i + 1, if count != 0 then chunks + [Counting(count)] else chunks, currentDigits + [message[i]], 0)
  {
    ReplacedStep(message, i);
    if count != 0 {
      JoinAppend(chunks, Counting(count));
    }
  }

  /** A non-digit flushes the open digits, if any, and counts one more. */
  lemma CollectedLetter(message: string, i: nat, chunks: seq<string>, currentDigits: string, count: nat)
    requires CollectedUpTo(message, i, chunks, currentDigits, count) && i < |message| && !IsDigit(message[i])
    ensures CollectedUpTo(message, i + 1, if currentDigits != [] then chunks + [currentDigits] else chunks, [], count + 1)
  {
    ReplacedStep(message, i);
    if currentDigits != [] {
      JoinAppend(chunks, currentDigits);
    }
    CountingSucc(count);
    ConcatAssoc(Join(chunks) + currentDigits, Counting(count), Str(count + 1));
  }

  lemma CountingSucc(k: nat)
    ensures Counting(k + 1) == Counting(k) + Str(k + 1)
  {
  }

  lemma ConcatAssoc(a: string, b: string, c: string)
    ensures a + (b + c) == (a + b) + c
  {
  }

  /** replace_letters_3: collect the current run of digits and count the
      current run of non-digits, flushing one when the other starts. */
  method ReplaceLetters3(message: string) returns (modified: string)
    ensures modified == Replaced(message)
  {
    var chunks: seq<string> := [];
    var currentDigits: string := "";
    var count: nat := 0;
    for i := 0 to |message|
      invariant CollectedUpTo(message, i, chunks, currentDigits, count)
    {
      var c := message[i];
      if IsDigit(c) {
        CollectedDigit(message, i, chunks, currentDigits, count);
        if count != 0 {
          chunks := chunks + [Counting(count)];
          count := 0;
        }
        currentDigits := currentDigits + [c];
      } else {
        CollectedLetter(message, i, chunks, currentDigits, count);
        if currentDigits != [] {
          chunks := chunks + [currentDigits];
          currentDigits := [];
        }
        count := count + 1;
      }
    }
    CollectedEnd(message, chunks, currentDigits, count);
    if currentDigits != [] {
      chunks := chunks + [currentDigits];
    }
    if count != 0 {
      chunks := chunks + [Counting(count)];
    }
    modified := Join(chunks);
  }

  /** The last flushes: the open run of digits, then the last count. */
  lemma CollectedEnd(message: string, chunks: seq<string>, currentDigits: string, count: nat)
    requires CollectedUpTo(message, |message|, chunks, currentDigits, count)
    ensures var flushed := if currentDigits != [] then chunks + [currentDigits] else chunks;
      Join(if count != 0 then flushed + [Counting(count)] else flushed) == Replaced(message)
  {
    var flushed := if currentDigits != [] then chunks + [currentDigits] else chunks;
    if currentDigits != [] {
      JoinAppend(chunks, currentDigits);
    }
    assert Join(flushed) == Join(chunks) + currentDigits;
    if count != 0 {
      JoinAppend(flushed, Counting(count));
    }
    assert message[..|message|] == message;
  }

  // ---------------------------------------------------------------------
  // replace_letters_4, group_digits, replace_letters_5: runs as a list
  // mixing digit substrings and counts of non-digits

  datatype Chunk = DigitRun(digits: string) | LetterRun(count: nat)

  /** A chunk as it appears in the output: a count k is written "12...k". */
  function Render(chunk: Chunk): string
  {
    match chunk
    case DigitRun(digits) => digits
    case LetterRun(count) => Counting(count)
  }

  /** Number of message characters a chunk stands for. */
  function Width(chunk: Chunk): nat
  {
    match chunk
    case DigitRun(digits) => |digits|
    case LetterRun(count) => count
  }

  /** The rendered chunks, joined. */
  function Rewrite(chunks: seq<Chunk>): string
  {
    if chunks == [] then "" else Rewrite(chunks[..|chunks| - 1]) + Render(chunks[|chunks| - 1])
  }

  /** Total number of message characters the chunks stand for. */
  function Size(chunks: seq<Chunk>): nat
  {
    if chunks == [] then 0 else Size(chunks[..|chunks| - 1]) + Width(chunks[|chunks| - 1])
  }

  lemma ChunksAppend(chunks: seq<Chunk>, chunk: Chunk)
    ensures Rewrite(chunks + [chunk]) == Rewrite(chunks) + Render(chunk)
    ensures Size(chunks + [chunk]) == Size(chunks) + Width(chunk)
  {
    assert (chunks + [chunk])[..|chunks|] == chunks;
  }

  /** Digit substrings and counts take turns; `firstCount` says which kind
      comes first. */
  predicate Alternating(chunks: seq<Chunk>, firstCount: bool)
  {
    (chunks != [] ==> chunks[0].LetterRun? == firstCount)
    && forall k :: 0 < k < |chunks| ==> chunks[k].LetterRun? != chunks[k - 1].LetterRun?
  }

  /** So the counts sit at the even positions when they come first, at the
      odd ones otherwise: the slice [offset::2] of the source. */
  lemma {:induction false} AlternatingParity(chunks: seq<Chunk>, firstCount: bool, k: nat)
    requires Alternating(chunks, firstCount) && k < |chunks|
    ensures chunks[k].LetterRun? <==> (k % 2 == 0) == firstCount
  {
    if k > 0 {
      AlternatingParity(chunks, firstCount, k - 1);
    }
  }

  /** The run message[start..end] as a chunk: its digits, or its length. */
  function Close(message: string, start: nat, end: nat, digits: bool): Chunk
    requires start <= end <= |message|
  {
    if digits then DigitRun(message[start..end]) else LetterRun(end - start)
  }

  /** The state of group_digits before position `current`: the chunks cover
      message[..start], and message[start..current] is the open run, of
      digits exactly when `inDigits`. */
  ghost predicate GroupedUpTo(message: string, chunks: seq<Chunk>, start: nat, current: nat, inDigits: bool, firstCount: bool)
  {
    start <= current <= |message|
    && (start == 0 || start < current)
    && Alternating(chunks, firstCount)
    && (chunks == [] ==> start == 0 && inDigits == !firstCount)
    && (chunks != [] ==> inDigits == chunks[|chunks| - 1].LetterRun?)
    && (forall j :: start <= j < current ==> IsDigit(message[j]) == inDigits)
    && (0 < start ==> IsDigit(message[start - 1]) != IsDigit(message[start]))
    && Size(chunks) == start
    && Rewrite(chunks) == Replaced(message[..start])
  }

  lemma GroupedStep(message: string, chunks: seq<Chunk>, start: nat, current: nat, inDigits: bool, firstCount: bool)
    requires GroupedUpTo(message, chunks, start, current, inDigits, firstCount) && current < |message|
    ensures IsDigit(message[current]) == inDigits ==> GroupedUpTo(message, chunks, start, current + 1, inDigits, firstCount)
    ensures IsDigit(message[current]) != inDigits ==>
      GroupedUpTo(message, chunks + [Close(message, start, current, inDigits)], current, current + 1, !inDigits, firstCount)
  {
    if IsDigit(message[current]) != inDigits {
      GroupedClose(message, chunks, start, current, inDigits, firstCount);
    }
  }

  /** Closing the open run when a character of the other kind comes. */
  lemma GroupedClose(message: string, chunks: seq<Chunk>, start: nat, current: nat, inDigits: bool, firstCount: bool)
    requires GroupedUpTo(message, chunks, start, current, inDigits, firstCount) && current < |message|
    requires IsDigit(message[current]) != inDigits
    ensures GroupedUpTo(message, chunks + [Close(message, start, current, inDigits)], current, current + 1, !inDigits, firstCount)
  {
    var chunk := Close(message, start, current, inDigits);
    var all := chunks + [chunk];
    RewriteClosed(message, chunks, start, current, inDigits);
    AlternatingAppend(chunks, chunk, firstCount);
    assert 0 < current ==> IsDigit(message[current - 1]) == inDigits;
    GroupedIntro(message, all, current, current + 1, !inDigits, firstCount);
  }

  /** Closing the run message[start..end] extends the rewriting to message[..end]. */
  lemma RewriteClosed(message: string, chunks: seq<Chunk>, start: nat, end: nat, digits: bool)
    requires start <= end <= |message|
    requires forall j :: start <= j < end ==> IsDigit(message[j]) == digits
    requires start == 0 || end == start || IsDigit(message[start - 1]) != IsDigit(message[start])
    requires Size(chunks) == start && Rewrite(chunks) == Replaced(message[..start])
    ensures Size(chunks + [Close(message, start, end, digits)]) == end
    ensures Rewrite(chunks + [Close(message, start, end, digits)]) == Replaced(message[..end])
  {
    var chunk := Close(message, start, end, digits);
    ReplacedRun(message, start, end, digits);
    ChunksAppend(chunks, chunk);
    assert Render(chunk) == if digits then message[start..end] else Counting(end - start);
  }

  lemma GroupedIntro(message: string, chunks: seq<Chunk>, start: nat, current: nat, inDigits: bool, firstCount: bool)
    requires start <= current <= |message|
    requires start == 0 || start < current
    requires Alternating(chunks, firstCount)
    requires chunks == [] ==> start == 0 && inDigits == !firstCount
    requires chunks != [] ==> inDigits == chunks[|chunks| - 1].LetterRun?
    requires forall j :: start <= j < current ==> IsDigit(message[j]) == inDigits
    requires 0 < start ==> IsDigit(message[start - 1]) != IsDigit(message[start])
    requires Size(chunks) == start
    requires Rewrite(chunks) == Replaced(message[..start])
    ensures GroupedUpTo(message, chunks, start, current, inDigits, firstCount)
  {
  }

  lemma GroupedEnd(message: string, chunks: seq<Chunk>, start: nat, inDigits: bool)
    requires GroupedUpTo(message, chunks, start, |message|, inDigits, false)
    ensures var all := chunks + [Close(message, start, |message|, inDigits)];
      Alternating(all, false) && Size(all) == |message| && Rewrite(all) == Replaced(message)
  {
    var n := |message|;
    RewriteClosed(message, chunks, start, n, inDigits);
    assert message[..n] == message;
    AlternatingAppend(chunks, Close(message, start, n, inDigits), false);
  }

  lemma AlternatingAppend(chunks: seq<Chunk>, chunk: Chunk, firstCount: bool)
    requires Alternating(chunks, firstCount)
    requires chunks == [] ==> chunk.LetterRun? == firstCount
    requires chunks != [] ==> chunk.LetterRun? != chunks[|chunks| - 1].LetterRun?
    ensures Alternating(chunks + [chunk], firstCount)
  {
    var all := chunks + [chunk];
    forall k | 0 < k < |all| ensures all[k].LetterRun? != all[k - 1].LetterRun? {
      if k < |chunks| {
        assert all[k] == chunks[k] && all[k - 1] == chunks[k - 1];
      }
    }
  }

  /** group_digits: a digit substring and a count of non-digits in turn,
      starting with a digit substring that may be empty. */
  method GroupDigits(message: string) returns (chunks: seq<Chunk>)
    ensures |chunks| >= 1 && Alternating(chunks, false)
    ensures Size(chunks) == |message|
    ensures Rewrite(chunks) == Replaced(message)
  {
    chunks := [];
    var start, inDigits := 0, true;
    for current := 0 to |message|
      invariant GroupedUpTo(message, chunks, start, current, inDigits, false)
    {
      GroupedStep(message, chunks, start, current, inDigits, false);
      if IsDigit(message[current]) != inDigits {
        var chunk := if inDigits then DigitRun(message[start..current]) else LetterRun(current - start);
        chunks := chunks + [chunk];
        start := current;
        inDigits := !inDigits;
      }
    }
    GroupedEnd(message, chunks, start, inDigits);
    var chunk := if inDigits then DigitRun(message[start..]) else LetterRun(|message| - start);
    chunks := chunks + [chunk];
  }

  /** max(modified_message[offset::2], default=0): the longest run of
      non-digits, 0 when there is none. */
  method LargestRun(chunks: seq<Chunk>, offset: nat) returns (largest: nat)
    requires offset < 2 && Alternating(chunks, offset == 0)
    ensures forall k :: 0 <= k < |chunks| && chunks[k].LetterRun? ==> chunks[k].count <= largest
    ensures largest == 0 || exists k :: 0 <= k < |chunks| && chunks[k].LetterRun? && chunks[k].count == largest
  {
    largest := 0;
    for k := 0 to |chunks|
      invariant forall j :: 0 <= j < k && chunks[j].LetterRun? ==> chunks[j].count <= largest
      invariant largest == 0 || exists j :: 0 <= j < k && chunks[j].LetterRun? && chunks[j].count == largest
    {
      AlternatingParity(chunks, offset == 0, k);
      if k % 2 == offset && chunks[k].count > largest {
        largest := chunks[k].count;
      }
    }
  }

  /** The table ['', '1', '12', ...]: entry k is "12...k". */
  method CountingTable(limit: nat) returns (table: seq<string>)
    ensures |table| == limit + 1
    ensures forall k :: 0 <= k <= limit ==> table[k] == Counting(k)
  {
    table := [""];
    for count := 1 to limit + 1
      invariant |table| == count
      invariant forall k :: 0 <= k < count ==> table[k] == Counting(k)
    {
      table := table + [table[|table| - 1] + Str(count)];
    }
  }

  /** modified_message[offset::2] replaced through the table, then joined. */
  method JoinChunks(chunks: seq<Chunk>, offset: nat, table: seq<string>) returns (joined: string)
    requires offset < 2 && Alternating(chunks, offset == 0)
    requires forall k :: 0 <= k < |chunks| && chunks[k].LetterRun? ==> chunks[k].count < |table|
    requires forall k :: 0 <= k < |table| ==> table[k] == Counting(k)
    ensures joined == Rewrite(chunks)
  {
    joined := "";
    for k := 0 to |chunks|
      invariant joined == Rewrite(chunks[..k])
    {
      assert chunks[..k + 1] == chunks[..k] + [chunks[k]];
      ChunksAppend(chunks[..k], chunks[k]);
      AlternatingParity(chunks, offset == 0, k);
      if k % 2 == offset {
        joined := joined + table[chunks[k].count];
      } else {
        joined := joined + chunks[k].digits;
      }
    }
    assert chunks[..|chunks|] == chunks;
  }

  /** replace_letters_5: group_digits, then the counts (at the odd
      positions) replaced through the table. */
  method ReplaceLetters5(message: string) returns (modified: string)
    ensures modified == Replaced(message)
  {
    var chunks := GroupDigits(message);
    var largest := LargestRun(chunks, 1);
    var table := CountingTable(largest);
    modified := JoinChunks(chunks, 1, table);
  }

  /** The run-splitting loop of replace_letters_4 over the message with its
      sentinel: the last run (the sentinel's) is never emitted. */
  method SplitRuns(message: string) returns (chunks: seq<Chunk>, start: nat)
    requires message != []
    ensures start < |message|
    ensures forall j :: start <= j < |message| ==> IsDigit(message[j]) == IsDigit(message[start])
    ensures 0 < start ==> IsDigit(message[start - 1]) != IsDigit(message[start])
    ensures Alternating(chunks, !IsDigit(message[0]))
    ensures Rewrite(chunks) == Replaced(message[..start])
  {
    chunks := [];
    start := 0;
    var inDigitSubstring := IsDigit(message[0]);
    for i := 0 to |message|
      invariant GroupedUpTo(message, chunks, start, i, inDigitSubstring, !IsDigit(message[0]))
    {
      GroupedStep(message, chunks, start, i, inDigitSubstring, !IsDigit(message[0]));
      var c := message[i];
      var was := inDigitSubstring;
      inDigitSubstring := IsDigit(c);
      if was != inDigitSubstring {
        var chunk := if inDigitSubstring then LetterRun(i - start) else DigitRun(message[start..i]);
        chunks := chunks + [chunk];
        start := i;
      }
    }
  }

  /** replace_letters_4: None when the message is empty (message[-1] raises
      IndexError); otherwise a sentinel of the other kind closes the last
      run, and the counts sit at the even positions when the message starts
      with a non-digit, at the odd ones otherwise. */
  method ReplaceLetters4(message: string) returns (modified: Option<string>)
    ensures modified.None? <==> message == []
    ensures modified.Some? ==> modified.value == Replaced(message)
  {
    if message == [] {
      return None;
    }
    var extended := message + (if IsDigit(message[|message| - 1]) then "A" else "0");
    var chunks, start := SplitRuns(extended);
    assert IsDigit(extended[|message| - 1]) != IsDigit(extended[|message|]);
    assert start == |message|;
    assert extended[..start] == message;
    var offset: nat := if IsDigit(extended[0]) then 1 else 0;
    var largest := LargestRun(chunks, offset);
    var table := CountingTable(largest);
    var joined := JoinChunks(chunks, offset, table);
    modified := Some(joined);
  }

  // ---------------------------------------------------------------------
  // nb_digits and letters2digits

  /** nb_digits: the number of decimal digits of a positive n. */
  method NbDigits(n: nat) returns (digits: nat)
    requires n > 0
    ensures digits == |Str(n)|
  {
    if n < 10 {
      return 1;
    }
    var b: nat, r: nat := 10, 1;
    while b < n
      invariant r >= 1 && b == Pow10(r) && Pow10(r - 1) < n
      decreases n - b
    {
      b := b * 10;
      r := r + 1;
    }
    ModuloSelf(n, b);
    digits := r + (if n % b == 0 then 1 else 0);
    if n == b {
      DigitCountUnique(n, r + 1);
    } else {
      DigitCountUnique(n, r);
    }
  }

  lemma ModuloSelf(n: nat, b: nat)
    requires 0 < n <= b
    ensures (n % b == 0) == (n == b)
  {
    if n < b {
      assert n % b == n;
    }
  }

  /** The integer written by "12...k" (0 for k = 0). */
  function Spelled(k: nat): nat
  {
    CountingShape(k);
    Value(Counting(k))
  }

  /** Appending str(i) to "12...(i-1)" multiplies its value by 10^len(str(i)). */
  lemma CountingStep(i: nat, d: nat)
    requires i >= 1 && Pow10(d) <= i < Pow10(d + 1)
    ensures Spelled(i) == Pow10(d + 1) * Spelled(i - 1) + i
  {
    AppendNumber(i, d);
    Commute(Spelled(i - 1), Pow10(d + 1));
  }

  lemma AppendNumber(i: nat, d: nat)
    requires i >= 1 && Pow10(d) <= i < Pow10(d + 1)
    ensures Spelled(i) == Spelled(i - 1) * Pow10(d + 1) + i
  {
    var before, digits := Counting(i - 1), Str(i);
    CountingShape(i - 1);
    assert Counting(i) == before + digits;
    DigitCountUnique(i, d + 1);
    ValueAppend(before, digits);
    ValueOfStr(i);
  }

  lemma Commute(a: int, b: int)
    ensures a * b == b * a
  {
  }

  /** iter_base: append str(i) for every i with base <= i < 10 * base and
      i <= n, all of them written with d + 1 digits. */
  method IterBase(n: nat, d: nat, base: nat, acc: nat) returns (nextBase: nat, acc': nat)
    requires base == Pow10(d) && base <= n
    requires acc == Spelled(base - 1)
    ensures nextBase == Pow10(d + 1)
    ensures acc' == Spelled(if nextBase <= n then nextBase - 1 else n)
  {
    nextBase := base * 10;
    var p := if nextBase < n + 1 then nextBase else n + 1;
    acc' := acc;
    for i := base to p
      invariant acc' == Spelled(i - 1)
    {
      CountingStep(i, d);
      acc' := nextBase * acc' + i;
    }
  }

  /** letters2digits(n): (10^L, N) where N is the number written by
      "12...n" and L its length; (1, 0) for n = 0. */
  method LettersToDigits(n: nat) returns (power: nat, acc: nat)
    ensures power == Pow10(|Counting(n)|)
    ensures acc == Spelled(n)
  {
    if n == 0 {
      return 1, 0;
    }
    var length := NbDigits(n);
    StrLengthBounds(n);
    var base: nat := 1;
    acc := 0;
    for d := 0 to length
      invariant base == Pow10(d)
      invariant acc == Spelled(if base <= n then base - 1 else n)
    {
      Pow10Monotone(d, length - 1);
      base, acc := IterBase(n, d, base, acc);
    }
    SpelledLength(n);
    var k := NbDigits(acc);
    power := Pow10(k);
  }

  /** The value of "12...n" is written back with as many digits as "12...n". */
  lemma SpelledLength(n: nat)
    requires n >= 1
    ensures Spelled(n) > 0 && |Str(Spelled(n))| == |Counting(n)|
  {
    var c := Counting(n);
    CountingShape(n);
    ValueBounds(c);
    DigitCountUnique(Spelled(n), |c|);
  }
}
