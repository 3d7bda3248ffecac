/** "Démineur revisité": a grid of m rows is built column by column. Each
    cell counts itself, the cell before it in its row, and its two
    neighbours in its column; the next column marks the cells whose count
    is even. A length is valid when every count of its last column is odd. */
module Minesweeper {

  function B2I(b: bool): nat
  {
    if b then 1 else 0
  }

  /** count[i] for the last column `last` and the one before it, `prev`
      (absent for the first column). */
  function CellCount(last: seq<bool>, prev: seq<bool>, i: nat): (r: nat)
    requires i < |last| && (prev == [] || |prev| == |last|)
    ensures r <= 4
  {
    B2I(last[i])
    + (if prev != [] then B2I(prev[i]) else 0)
    + (if i > 0 then B2I(last[i - 1]) else 0)
    + (if i < |last| - 1 then B2I(last[i + 1]) else 0)
  }

  /** The next column: true exactly where the count is even. */
  function NextColumn(last: seq<bool>, prev: seq<bool>): (r: seq<bool>)
    requires prev == [] || |prev| == |last|
    ensures |r| == |last|
    ensures forall i :: 0 <= i < |last| ==> (r[i] <==> CellCount(last, prev, i) % 2 == 0)
  {
    seq(|last|, i requires 0 <= i < |last| => CellCount(last, prev, i) % 2 == 0)
  }

  /** Every count of the column is odd. */
  predicate AllOdd(last: seq<bool>, prev: seq<bool>)
    requires prev == [] || |prev| == |last|
  {
    forall i :: 0 <= i < |last| ==> CellCount(last, prev, i) % 2 == 1
  }

  /** The column before the last one of a grid of length n, or none. */
  function Prev(grid: seq<seq<bool>>, n: nat): seq<bool>
    requires 1 <= n <= |grid|
  {
    if n >= 2 then grid[n - 2] else []
  }

  /** A valid grid: each column follows from the two before it. */
  predicate Built(grid: seq<seq<bool>>, m: nat)
  {
    |grid| >= 1
    && (forall j :: 0 <= j < |grid| ==> |grid[j]| == m)
    && (forall j :: 1 <= j < |grid| ==>
          grid[j] == NextColumn(grid[j - 1], Prev(grid, j)))
  }

  /** Whether length n of the grid is valid. */
  predicate ValidLength(grid: seq<seq<bool>>, m: nat, n: nat)
    requires Built(grid, m) && 1 <= n <= |grid|
  {
    AllOdd(grid[n - 1], Prev(grid, n))
  }

  /** The column is empty: all(c == 0 for c in column). */
  predicate Empty(column: seq<bool>)
  {
    forall i :: 0 <= i < |column| ==> !column[i]
  }

  /** A length is valid exactly when the column that would follow it is
      empty. */
  lemma ValidIffEmptyNext(last: seq<bool>, prev: seq<bool>)
    requires prev == [] || |prev| == |last|
    ensures AllOdd(last, prev) <==> Empty(NextColumn(last, prev))
  {
    var next := NextColumn(last, prev);
    if Empty(next) {
      forall i | 0 <= i < |last|
        ensures CellCount(last, prev, i) % 2 == 1
      {
        assert !next[i];
      }
    }
  }

  /** The grid after one more column. */
  function Grow(grid: seq<seq<bool>>, m: nat): seq<seq<bool>>
    requires Built(grid, m)
  {
    grid + [NextColumn(grid[|grid| - 1], Prev(grid, |grid|))]
  }

  /** Growing keeps the grid built, its start, and the validity of every
      length it already had. */
  lemma GrowKeeps(grid: seq<seq<bool>>, m: nat)
    requires Built(grid, m)
    ensures Built(Grow(grid, m), m) && |Grow(grid, m)| == |grid| + 1
    ensures Grow(grid, m)[0] == grid[0]
    ensures forall n :: 1 <= n <= |grid| ==>
      (ValidLength(Grow(grid, m), m, n) <==> ValidLength(grid, m, n))
  {
    var g := Grow(grid, m);
    forall j | 1 <= j < |g|
      ensures g[j] == NextColumn(g[j - 1], Prev(g, j))
    {
      assert g[j - 1] == grid[j - 1] && Prev(g, j) == Prev(grid, j);
    }
    forall n | 1 <= n <= |grid|
      ensures g[n - 1] == grid[n - 1] && Prev(g, n) == Prev(grid, n)
    {
    }
  }

  /** The lengths are listed in increasing order, all between 1 and n. */
  predicate Increasing(lengths: seq<nat>, n: nat)
  {
    (forall k :: 0 <= k < |lengths| - 1 ==> lengths[k] < lengths[k + 1])
    && (forall k :: 0 <= k < |lengths| ==> 1 <= lengths[k] <= n)
  }

  /** The lengths 1 to n listed are exactly the valid ones. */
  predicate Listed(lengths: seq<nat>, grid: seq<seq<bool>>, m: nat, n: nat)
    requires Built(grid, m) && n <= |grid|
  {
    forall k :: 1 <= k <= n ==> (k in lengths <==> ValidLength(grid, m, k))
  }

  /** Appending the current length when it is valid lists the lengths up to
      it. */
  lemma Recorded(grid: seq<seq<bool>>, m: nat, before: seq<nat>, after: seq<nat>)
    requires Built(grid, m)
    requires Increasing(before, |grid| - 1) && Listed(before, grid, m, |grid| - 1)
    requires after == if ValidLength(grid, m, |grid|) then before + [|grid|] else before
    ensures Increasing(after, |grid|) && Listed(after, grid, m, |grid|)
  {
  }

  /** Growing the grid keeps the lengths listed. */
  lemma GrowListed(grid: seq<seq<bool>>, m: nat, lengths: seq<nat>)
    requires Built(grid, m) && Listed(lengths, grid, m, |grid|)
    ensures Built(Grow(grid, m), m) && Listed(lengths, Grow(grid, m), m, |grid|)
  {
    GrowKeeps(grid, m);
  }

  /** The inner loop of solve for one start column, stopped after `fuel`
      columns. It stops by itself when the next column is the start column
      again and the last column is empty. */
  method Walk(start: seq<bool>, fuel: nat)
    returns (grid: seq<seq<bool>>, validLengths: seq<nat>, currentLength: nat, stopped: bool)
    ensures Built(grid, |start|) && grid[0] == start
    ensures |grid| == currentLength
    ensures forall k :: 0 <= k < |validLengths| - 1 ==> validLengths[k] < validLengths[k + 1]
    ensures forall k :: 0 <= k < |validLengths| ==> 1 <= validLengths[k] <= currentLength
    ensures forall n :: 1 <= n <= currentLength ==>
      (n in validLengths <==> (n < currentLength || stopped) && ValidLength(grid, |start|, n))
    ensures stopped ==>
      NextColumn(grid[currentLength - 1], Prev(grid, currentLength)) == start
      && Empty(grid[currentLength - 1])
  {
    grid := [start];
    validLengths := [];
    currentLength := 1;
    var steps := 0;
    while steps < fuel
      invariant Built(grid, |start|) && grid[0] == start && |grid| == currentLength
      invariant Increasing(validLengths, currentLength - 1)
      invariant Listed(validLengths, grid, |start|, currentLength - 1)
      decreases fuel - steps
    {
      var last, prev := grid[currentLength - 1], Prev(grid, currentLength);
      var valid := AllOdd(last, prev);
      ghost var before := validLengths;
      if valid {
        validLengths := validLengths + [currentLength];
      }
      Recorded(grid, |start|, before, validLengths);
      var next := NextColumn(last, prev);
      if next == start && Empty(last) {
        return grid, validLengths, currentLength, true;
      }
      GrowListed(grid, |start|, validLengths);
      grid := grid + [next];
      currentLength := currentLength + 1;
      steps := steps + 1;
    }
    return grid, validLengths, currentLength, false;
  }
}
