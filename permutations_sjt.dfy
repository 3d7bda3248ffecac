/** gen_permutations of "Combien de dispositions à partir de n cubes": the
    Steinhaus–Johnson–Trotter algorithm. values[i] is the 1-based position,
    in the input, of the element now at index i, and directions[i] is the
    way that element looks (-1 to the left, 1 to the right). Each step
    swaps the largest mobile element with the neighbour it looks at, then
    turns round every element larger than it. */
module SteinhausJohnsonTrotter {
  import opened Options

  datatype State = State(values: seq<int>, directions: seq<int>)

  /** values = [1, ..., n], directions = [-1] * n. */
  function Start(n: nat): State
  {
    State(seq(n, i => i + 1), seq(n, i => -1))
  }

  /** Every entry of values is a position 1..n. */
  predicate InRange(values: seq<int>, n: nat)
  {
    forall i :: 0 <= i < |values| ==> 1 <= values[i] <= n
  }

  /** The state's lists have length n, its values are positions 1..n and
      every direction is -1 or 1. */
  predicate Valid(st: State, n: nat)
  {
    |st.values| == n && |st.directions| == n && InRange(st.values, n) &&
    (forall i :: 0 <= i < n ==> st.directions[i] == -1 || st.directions[i] == 1)
  }

  /** No value occurs twice; with Valid, values is a permutation of 1..n. */
  predicate Distinct(values: seq<int>)
  {
    forall i, j :: 0 <= i < j < |values| ==> values[i] != values[j]
  }

  /** Element i looks at a neighbour inside the list holding a smaller value. */
  predicate Mobile(st: State, i: int)
  {
    |st.directions| == |st.values| && 0 <= i < |st.values| &&
    0 <= i + st.directions[i] < |st.values| && st.values[i + st.directions[i]] < st.values[i]
  }

  /** The scan of gen_permutations over the indices below k: the position and
      value of the mobile element with the largest value, or (None, 0). */
  function Largest(st: State, k: nat): (r: (Option<nat>, int))
    requires k <= |st.values|
    ensures r.0.None? ==> r.1 == 0
    ensures r.0.Some? ==> r.0.value < k && Mobile(st, r.0.value) && st.values[r.0.value] == r.1
  {
    if k == 0 then (None, 0)
    else
      var r := Largest(st, k - 1);
      if st.values[k - 1] > r.1 && Mobile(st, k - 1) then (Some(k - 1), st.values[k - 1]) else r
  }

  /** With positive values, the scan finds the largest mobile value, and 0
      exactly when no element is mobile. */
  lemma {:induction false} LargestMeaning(st: State, k: nat)
    requires k <= |st.values| && forall i :: 0 <= i < |st.values| ==> st.values[i] >= 1
    ensures Largest(st, k).1 == 0 <==> forall i :: 0 <= i < k ==> !Mobile(st, i)
    ensures forall i :: 0 <= i < k && Mobile(st, i) ==> st.values[i] <= Largest(st, k).1
  {
    if k > 0 {
      LargestMeaning(st, k - 1);
    }
  }

  /** values[i], values[j] = values[j], values[i]. */
  function Swap(s: seq<int>, i: nat, j: nat): seq<int>
    requires i < |s| && j < |s|
  {
    s[i := s[j]][j := s[i]]
  }

  /** A swap exchanges the two elements, keeps the others and so keeps the
      multiset of elements. */
  lemma SwapFacts(s: seq<int>, i: nat, j: nat)
    requires i < |s| && j < |s|
    ensures |Swap(s, i, j)| == |s| && multiset(Swap(s, i, j)) == multiset(s)
    ensures Swap(s, i, j)[i] == s[j] && Swap(s, i, j)[j] == s[i]
    ensures forall k :: 0 <= k < |s| && k != i && k != j ==> Swap(s, i, j)[k] == s[k]
  {
  }

  /** Move the mobile element at i one place and turn round every element
      whose value is above `value`. */
  function Step(st: State, i: nat, value: int): (r: State)
    requires Mobile(st, i)
  {
    var j := i + st.directions[i];
    var values := Swap(st.values, i, j);
    var directions := Swap(st.directions, i, j);
    State(values, seq(|values|, k requires 0 <= k < |values| =>
      if values[k] > value then -directions[k] else directions[k]))
  }

  /** The state after one step, None when no element is mobile. */
  function Next(st: State): Option<State>
  {
    var r := Largest(st, |st.values|);
    if r.1 == 0 then None else Some(Step(st, r.0.value, r.1))
  }

  /** The states visited from st by repeating step until it gives None,
      taking at most fuel steps. */
  function Iterate(step: State -> Option<State>, st: State, fuel: nat): (r: seq<State>)
    ensures r != [] && r[0] == st
    decreases fuel
  {
    match step(st)
    case None => [st]
    case Some(t) => if fuel == 0 then [st] else [st] + Iterate(step, t, fuel - 1)
  }

  /** The iteration goes on past index k exactly when the step from the state
      there gives a state and fuel is left, and then that state comes next. */
  lemma {:induction false} IterateIndex(step: State -> Option<State>, st: State, fuel: nat, k: nat)
    requires k < |Iterate(step, st, fuel)|
    ensures k + 1 < |Iterate(step, st, fuel)| <==> step(Iterate(step, st, fuel)[k]).Some? && k < fuel
    ensures k + 1 < |Iterate(step, st, fuel)| ==> Iterate(step, st, fuel)[k + 1] == step(Iterate(step, st, fuel)[k]).value
    decreases fuel
  {
    if k > 0 {
      var t := step(st).value;
      IterateIndex(step, t, fuel - 1, k - 1);
      assert Iterate(step, st, fuel)[1..] == Iterate(step, t, fuel - 1);
    }
  }

  /** The states gen_permutations goes through from st, taking at most
      fuel steps. */
  function Run(st: State, fuel: nat): (r: seq<State>)
    ensures r != [] && r[0] == st
  {
    Iterate(Next, st, fuel)
  }

  /** The run goes on past index k exactly when the state there has a mobile
      element and fuel is left, and then the next state is its step. */
  lemma RunIndex(st: State, fuel: nat, k: nat)
    requires k < |Run(st, fuel)|
    ensures k + 1 < |Run(st, fuel)| <==> Next(Run(st, fuel)[k]).Some? && k < fuel
    ensures k + 1 < |Run(st, fuel)| ==> Run(st, fuel)[k + 1] == Next(Run(st, fuel)[k]).value
  {
    IterateIndex(Next, st, fuel, k);
  }

  lemma StartValid(n: nat)
    ensures Valid(Start(n), n)
  {
  }

  /** A step keeps values a permutation and the directions -1 or 1. */
  lemma StepValid(st: State, n: nat, i: nat, value: int)
    requires Valid(st, n) && Mobile(st, i)
    ensures Valid(Step(st, i, value), n)
  {
    SwapFacts(st.values, i, i + st.directions[i]);
    SwapFacts(st.directions, i, i + st.directions[i]);
  }

  /** A swap keeps the elements of a list distinct. */
  lemma SwapDistinct(s: seq<int>, i: nat, j: nat)
    requires i < |s| && j < |s| && Distinct(s)
    ensures Distinct(Swap(s, i, j))
  {
    var t := Swap(s, i, j);
    SwapFacts(s, i, j);
    forall a, b | 0 <= a < b < |t|
      ensures t[a] != t[b]
    {
      var a' := if a == i then j else if a == j then i else a;
      var b' := if b == i then j else if b == j then i else b;
      assert t[a] == s[a'] && t[b] == s[b'];
      if a' < b' {
        assert s[a'] != s[b'];
      } else {
        assert s[b'] != s[a'];
      }
    }
  }

  /** A step keeps a state valid. */
  lemma NextValid(st: State, n: nat)
    requires Valid(st, n) && Next(st).Some?
    ensures Valid(Next(st).value, n)
  {
    var r := Largest(st, |st.values|);
    StepValid(st, n, r.0.value, r.1);
  }

  /** A step keeps the values distinct. */
  lemma NextDistinct(st: State)
    requires Distinct(st.values) && Next(st).Some?
    ensures Distinct(Next(st).value.values)
  {
    var i := Largest(st, |st.values|).0.value;
    SwapDistinct(st.values, i, i + st.directions[i]);
  }

  /** Every state of the run from the start holds a permutation of 1..n. */
  lemma {:induction false} RunPermutations(n: nat, fuel: nat, k: nat)
    requires k < |Run(Start(n), fuel)|
    ensures Valid(Run(Start(n), fuel)[k], n) && Distinct(Run(Start(n), fuel)[k].values)
  {
    RunStatesValid(n, fuel, k);
    if k > 0 {
      RunPermutations(n, fuel, k - 1);
      RunIndex(Start(n), fuel, k - 1);
      NextDistinct(Run(Start(n), fuel)[k - 1]);
    }
  }

  /** Every state of a run from a valid state is valid. */
  lemma RunValid(st: State, n: nat, fuel: nat)
    requires Valid(st, n)
    ensures forall k :: 0 <= k < |Run(st, fuel)| ==> Valid(Run(st, fuel)[k], n)
  {
    forall k | 0 <= k < |Run(st, fuel)|
      ensures Valid(Run(st, fuel)[k], n)
    {
      RunValidAt(st, n, fuel, k);
    }
  }

  lemma {:induction false} RunValidAt(st: State, n: nat, fuel: nat, k: nat)
    requires Valid(st, n) && k < |Run(st, fuel)|
    ensures Valid(Run(st, fuel)[k], n)
  {
    if k > 0 {
      RunValidAt(st, n, fuel, k - 1);
      RunIndex(st, fuel, k - 1);
      NextValid(Run(st, fuel)[k - 1], n);
    }
  }

  /** tuple(sequence) in the source: the input read in the order of values. */
  function Arrange(sequence: seq<int>, values: seq<int>): (r: seq<int>)
    requires InRange(values, |sequence|)
    ensures |r| == |values| && forall i :: 0 <= i < |values| ==> r[i] == sequence[values[i] - 1]
  {
    seq(|values|, i requires 0 <= i < |values| => sequence[values[i] - 1])
  }

  /** Swapping two positions of values swaps the same two elements of the
      tuple. */
  lemma ArrangeSwap(sequence: seq<int>, values: seq<int>, i: nat, j: nat)
    requires InRange(values, |sequence|)
    requires i < |values| && j < |values|
    ensures Arrange(sequence, Swap(values, i, j)) == Swap(Arrange(sequence, values), i, j)
  {
    SwapFacts(values, i, j);
    SwapFacts(Arrange(sequence, values), i, j);
  }

  /** The tuple after a step is the tuple before it with the moved element
      swapped the same way. */
  lemma StepArrange(sequence: seq<int>, st: State, i: nat, value: int)
    requires Valid(st, |sequence|) && Mobile(st, i)
    ensures InRange(Step(st, i, value).values, |sequence|)
    ensures Arrange(sequence, Step(st, i, value).values) == Swap(Arrange(sequence, st.values), i, i + st.directions[i])
  {
    StepValid(st, |sequence|, i, value);
    ArrangeSwap(sequence, st.values, i, i + st.directions[i]);
  }

  /** Every state of the run from the start is valid. */
  lemma RunStatesValid(n: nat, fuel: nat, k: nat)
    requires k < |Run(Start(n), fuel)|
    ensures Valid(Run(Start(n), fuel)[k], n)
  {
    StartValid(n);
    RunValid(Start(n), n, fuel);
  }

  function Last(states: seq<State>): State
    requires states != []
  {
    states[|states| - 1]
  }

  /** The input read through each of the states. */
  function Tuples(sequence: seq<int>, states: seq<State>): seq<seq<int>>
    requires forall k :: 0 <= k < |states| ==> Valid(states[k], |sequence|)
  {
    if states == [] then []
    else
      assert Valid(states[0], |sequence|);
      [Arrange(sequence, states[0].values)] + Tuples(sequence, states[1..])
  }

  lemma {:induction false} TuplesAt(sequence: seq<int>, states: seq<State>, k: nat)
    requires forall j :: 0 <= j < |states| ==> Valid(states[j], |sequence|)
    ensures |Tuples(sequence, states)| == |states|
    ensures k < |states| ==> Tuples(sequence, states)[k] == Arrange(sequence, states[k].values)
  {
    if states != [] {
      TuplesAt(sequence, states[1..], if k == 0 then 0 else k - 1);
    }
  }

  /** The tuples gen_permutations(sequence) yields within fuel steps: the
      input read through each state of the run. */
  function Arrangements(sequence: seq<int>, fuel: nat): seq<seq<int>>
  {
    StartValid(|sequence|);
    RunValid(Start(|sequence|), |sequence|, fuel);
    Tuples(sequence, Run(Start(|sequence|), fuel))
  }

  /** One tuple per state of the run, each the input read through the state
      at the same index. */
  lemma ArrangementsAt(sequence: seq<int>, fuel: nat, k: nat)
    requires k < |Run(Start(|sequence|), fuel)|
    ensures Valid(Run(Start(|sequence|), fuel)[k], |sequence|)
    ensures |Arrangements(sequence, fuel)| == |Run(Start(|sequence|), fuel)|
    ensures Arrangements(sequence, fuel)[k] == Arrange(sequence, Run(Start(|sequence|), fuel)[k].values)
  {
    StartValid(|sequence|);
    RunValid(Start(|sequence|), |sequence|, fuel);
    TuplesAt(sequence, Run(Start(|sequence|), fuel), k);
  }

  lemma ArrangementsLength(sequence: seq<int>, fuel: nat)
    ensures |Arrangements(sequence, fuel)| == |Run(Start(|sequence|), fuel)|
  {
    StartValid(|sequence|);
    RunValid(Start(|sequence|), |sequence|, fuel);
    TuplesAt(sequence, Run(Start(|sequence|), fuel), 0);
  }

  /** The turn k of the loop where the generator returns: the scan found
      nothing (or, here, the fuel is spent), so the state reached is the last
      one and every tuple has been yielded. */
  lemma Stop(sequence: seq<int>, fuel: nat, k: nat, position: Option<nat>, value: int)
    requires k < |Run(Start(|sequence|), fuel)|
    requires (position, value) == Largest(Run(Start(|sequence|), fuel)[k], |Run(Start(|sequence|), fuel)[k].values|)
    requires value == 0 || k == fuel
    ensures value == 0 <==> Next(Run(Start(|sequence|), fuel)[k]).None?
    ensures k + 1 == |Run(Start(|sequence|), fuel)| == |Arrangements(sequence, fuel)|
    ensures Arrangements(sequence, fuel)[..k + 1] == Arrangements(sequence, fuel)
  {
    RunIndex(Start(|sequence|), fuel, k);
    ArrangementsLength(sequence, fuel);
  }

  /** Any other turn k: the scan found the mobile element at i, and the next
      state of the run is the step that moves it. */
  lemma Go(n: nat, fuel: nat, k: nat, i: nat, value: int)
    requires k < |Run(Start(n), fuel)| && k < fuel && value != 0
    requires (Some(i), value) == Largest(Run(Start(n), fuel)[k], |Run(Start(n), fuel)[k].values|)
    ensures k + 1 < |Run(Start(n), fuel)|
    ensures Valid(Run(Start(n), fuel)[k], n) && Mobile(Run(Start(n), fuel)[k], i)
    ensures Run(Start(n), fuel)[k + 1] == Step(Run(Start(n), fuel)[k], i, value) && Valid(Run(Start(n), fuel)[k + 1], n)
  {
    RunIndex(Start(n), fuel, k);
    RunStatesValid(n, fuel, k);
    RunStatesValid(n, fuel, k + 1);
  }

  /** The state of the loop of gen_permutations at turn k: the state is the
      one at index k of the run, current is its tuple, and the tuples of the
      earlier states have been yielded. */
  ghost predicate Reached(sequence: seq<int>, fuel: nat, k: nat, perms: seq<seq<int>>, current: seq<int>, state: State)
  {
    k < |Run(Start(|sequence|), fuel)| && state == Run(Start(|sequence|), fuel)[k] &&
    Valid(state, |sequence|) && k < |Arrangements(sequence, fuel)| &&
    current == Arrangements(sequence, fuel)[k] && perms == Arrangements(sequence, fuel)[..k]
  }

  /** The first k + 1 elements are the first k and then element k. */
  lemma TakeOneMore(s: seq<seq<int>>, k: nat)
    requires k < |s|
    ensures s[..k + 1] == s[..k] + [s[k]]
  {
  }

  /** Before the loop: nothing yielded, the first state, the input itself. */
  lemma Begin(sequence: seq<int>, fuel: nat)
    ensures Reached(sequence, fuel, 0, [], sequence, Start(|sequence|))
  {
    RunStatesValid(|sequence|, fuel, 0);
    ArrangementsAt(sequence, fuel, 0);
  }

  /** The loop goes round once more: the largest mobile element of the
      state can move, within the tuple. */
  lemma Moving(sequence: seq<int>, fuel: nat, k: nat, perms: seq<seq<int>>, current: seq<int>, state: State, i: nat, value: int)
    requires Reached(sequence, fuel, k, perms, current, state) && k < fuel && value != 0
    requires (Some(i), value) == Largest(state, |state.values|)
    ensures Mobile(state, i) && |current| == |state.values|
  {
    Go(|sequence|, fuel, k, i, value);
    ArrangementsAt(sequence, fuel, k);
  }

  /** The current tuple is yielded, and the swapped tuple and the stepped
      state are those of the next index of the run. */
  lemma Advance(sequence: seq<int>, fuel: nat, k: nat, perms: seq<seq<int>>, current: seq<int>, state: State, i: nat, value: int, swapped: seq<int>, next: State)
    requires Reached(sequence, fuel, k, perms, current, state) && k < fuel && value != 0
    requires (Some(i), value) == Largest(state, |state.values|)
    requires Mobile(state, i) && |current| == |state.values|
    requires swapped == Swap(current, i, i + state.directions[i]) && next == Step(state, i, value)
    ensures Reached(sequence, fuel, k + 1, perms + [current], swapped, next)
  {
    Go(|sequence|, fuel, k, i, value);
    ArrangementsAt(sequence, fuel, k);
    ArrangementsAt(sequence, fuel, k + 1);
    StepArrange(sequence, state, i, value);
    TakeOneMore(Arrangements(sequence, fuel), k);
  }

  /** The last turn: the current tuple completes the tuples, and the state is
      the last of the run. */
  lemma Finish(sequence: seq<int>, fuel: nat, k: nat, perms: seq<seq<int>>, current: seq<int>, state: State, position: Option<nat>, value: int)
    requires Reached(sequence, fuel, k, perms, current, state) && (value == 0 || k == fuel)
    requires (position, value) == Largest(state, |state.values|)
    ensures perms + [current] == Arrangements(sequence, fuel)
    ensures value == 0 <==> Next(Last(Run(Start(|sequence|), fuel))).None?
  {
    Stop(sequence, fuel, k, position, value);
    TakeOneMore(Arrangements(sequence, fuel), k);
  }

  /** The scan loop of gen_permutations: the position and value of the
      largest mobile element. */
  method FindLargest(st: State) returns (position: Option<nat>, value: int)
    requires |st.directions| == |st.values|
    ensures (position, value) == Largest(st, |st.values|)
  {
    var values, directions := st.values, st.directions;
    position, value := None, 0;
    for i := 0 to |values|
      invariant (position, value) == Largest(st, i)
    {
      var v := values[i];
      if v > value && 0 <= i + directions[i] < |values| && values[i + directions[i]] < v {
        position, value := Some(i), v;
      }
    }
  }

  /** The swap and the turning loop of gen_permutations. */
  method Move(st: State, i: nat, value: int) returns (next: State)
    requires Mobile(st, i)
    ensures next == Step(st, i, value)
  {
    var j := i + st.directions[i];
    var values := st.values[i := st.values[j]][j := st.values[i]];
    var directions := st.directions[i := st.directions[j]][j := st.directions[i]];
    ghost var turned := directions;
    for k := 0 to |values|
      invariant |directions| == |values|
      invariant forall t :: 0 <= t < k ==> directions[t] == if values[t] > value then -turned[t] else turned[t]
      invariant forall t :: k <= t < |values| ==> directions[t] == turned[t]
    {
      if values[k] > value {
        directions := directions[k := directions[k] * -1];
      }
    }
    next := State(values, directions);
  }

  /** One turn of the loop of gen_permutations after the scan: the largest
      mobile element is swapped with its neighbour, in the tuple and in the
      state, and the directions of the larger elements are turned. */
  method Turn(ghost sequence: seq<int>, ghost fuel: nat, ghost k: nat, ghost perms: seq<seq<int>>, current: seq<int>, state: State, i: nat, value: int)
    returns (swapped: seq<int>, next: State)
    requires Reached(sequence, fuel, k, perms, current, state) && k < fuel && value != 0
    requires (Some(i), value) == Largest(state, |state.values|)
    ensures Reached(sequence, fuel, k + 1, perms + [current], swapped, next)
  {
    Moving(sequence, fuel, k, perms, current, state, i, value);
    var j := i + state.directions[i];
    swapped := Swap(current, i, j);
    next := Move(state, i, value);
    Advance(sequence, fuel, k, perms, current, state, i, value, swapped, next);
  }

  /** gen_permutations(sequence) with its yields collected. It stops after at
      most fuel steps; finished tells whether the generator returned, that
      is whether the last state has no mobile element. */
  method GenPermutations(sequence: seq<int>, fuel: nat) returns (perms: seq<seq<int>>, finished: bool)
    ensures perms == Arrangements(sequence, fuel)
    ensures finished <==> Next(Last(Run(Start(|sequence|), fuel))).None?
  {
    var current := sequence;
    var state := Start(|sequence|);
    perms := [];
    var left := fuel;
    ghost var k: nat := 0;
    Begin(sequence, fuel);
    while true
      invariant k + left == fuel && Reached(sequence, fuel, k, perms, current, state)
      decreases left
    {
      var position, value := FindLargest(state);
      if value == 0 || left == 0 {
        Finish(sequence, fuel, k, perms, current, state, position, value);
        perms := perms + [current];
        finished := value == 0;
        return;
      }
      var swapped, next := Turn(sequence, fuel, k, perms, current, state, position.value, value);
      perms := perms + [current];
      current, state := swapped, next;
      left := left - 1;
      k := k + 1;
    }
  }

  /** The first tuple is the input itself. */
  lemma ArrangementsFirst(sequence: seq<int>, fuel: nat)
    ensures Arrangements(sequence, fuel)[0] == sequence
  {
    ArrangementsAt(sequence, fuel, 0);
  }

  /** b is a with the elements at two adjacent indices exchanged. */
  ghost predicate AdjacentSwap(a: seq<int>, b: seq<int>)
  {
    |a| == |b| && exists i :: SwappedAt(a, b, i)
  }

  predicate SwappedAt(a: seq<int>, b: seq<int>, i: int)
  {
    0 <= i < |a| - 1 && b == Swap(a, i, i + 1)
  }

  /** An exchange of adjacent elements keeps the multiset of elements. */
  lemma AdjacentSwapMultiset(a: seq<int>, b: seq<int>)
    requires AdjacentSwap(a, b)
    ensures multiset(b) == multiset(a)
  {
    var i :| SwappedAt(a, b, i);
    SwapFacts(a, i, i + 1);
  }

  lemma SwapSymmetric(s: seq<int>, i: nat, j: nat)
    requires i < |s| && j < |s|
    ensures Swap(s, i, j) == Swap(s, j, i)
  {
    SwapFacts(s, i, j);
    SwapFacts(s, j, i);
  }

  /** A step exchanges two adjacent values. */
  lemma StepSwap(st: State, n: nat)
    requires Valid(st, n) && Next(st).Some?
    ensures AdjacentSwap(st.values, Next(st).value.values)
  {
    var r := Largest(st, |st.values|);
    var i := r.0.value;
    var j := i + st.directions[i];
    var values := Swap(st.values, i, j);
    assert Next(st).value.values == values;
    if j == i + 1 {
      assert SwappedAt(st.values, values, i);
    } else {
      SwapSymmetric(st.values, i, j);
      assert SwappedAt(st.values, values, j);
    }
  }

  /** The tuple at index k is the one before it with two adjacent elements
      exchanged. */
  lemma ArrangementStep(sequence: seq<int>, fuel: nat, k: nat)
    requires 0 < k < |Arrangements(sequence, fuel)|
    ensures AdjacentSwap(Arrangements(sequence, fuel)[k - 1], Arrangements(sequence, fuel)[k])
  {
    var n := |sequence|;
    var states := Run(Start(n), fuel);
    ArrangementsLength(sequence, fuel);
    ArrangementsAt(sequence, fuel, k - 1);
    ArrangementsAt(sequence, fuel, k);
    RunIndex(Start(n), fuel, k - 1);
    StepSwap(states[k - 1], n);
    var a, b := states[k - 1].values, states[k].values;
    var i :| SwappedAt(a, b, i);
    ArrangeSwap(sequence, a, i, i + 1);
    assert SwappedAt(Arrangements(sequence, fuel)[k - 1], Arrangements(sequence, fuel)[k], i);
  }

  /** Consecutive tuples differ by one swap of adjacent positions. */
  lemma ArrangementsAdjacent(sequence: seq<int>, fuel: nat)
    ensures forall k :: 0 < k < |Arrangements(sequence, fuel)| ==>
      AdjacentSwap(Arrangements(sequence, fuel)[k - 1], Arrangements(sequence, fuel)[k])
  {
    forall k | 0 < k < |Arrangements(sequence, fuel)|
      ensures AdjacentSwap(Arrangements(sequence, fuel)[k - 1], Arrangements(sequence, fuel)[k])
    {
      ArrangementStep(sequence, fuel, k);
    }
  }

  /** Every tuple is a rearrangement of the input. */
  lemma ArrangementsRearrange(sequence: seq<int>, fuel: nat)
    ensures forall k :: 0 <= k < |Arrangements(sequence, fuel)| ==>
      multiset(Arrangements(sequence, fuel)[k]) == multiset(sequence)
  {
    forall k | 0 <= k < |Arrangements(sequence, fuel)|
      ensures multiset(Arrangements(sequence, fuel)[k]) == multiset(sequence)
    {
      ArrangementRearranges(sequence, fuel, k);
    }
  }

  lemma {:induction false} ArrangementRearranges(sequence: seq<int>, fuel: nat, k: nat)
    requires k < |Arrangements(sequence, fuel)|
    ensures multiset(Arrangements(sequence, fuel)[k]) == multiset(sequence)
  {
    var perms := Arrangements(sequence, fuel);
    if k == 0 {
      ArrangementsFirst(sequence, fuel);
    } else {
      ArrangementRearranges(sequence, fuel, k - 1);
      ArrangementStep(sequence, fuel, k);
      AdjacentSwapMultiset(perms[k - 1], perms[k]);
    }
  }

  // ---------------------------------------------------------------------
  // Parity.

  /** The number of elements of s below x. */
  function CountBelow(x: int, s: seq<int>): nat
  {
    if s == [] then 0 else (if s[0] < x then 1 else 0) + CountBelow(x, s[1..])
  }

  /** The number of pairs i < j with s[i] > s[j]. */
  function Inversions(s: seq<int>): nat
  {
    if s == [] then 0 else CountBelow(s[0], s[1..]) + Inversions(s[1..])
  }

  lemma {:induction false} CountBelowSwap(x: int, s: seq<int>, i: nat)
    requires i + 1 < |s|
    ensures CountBelow(x, Swap(s, i, i + 1)) == CountBelow(x, s)
  {
    var t := Swap(s, i, i + 1);
    if i == 0 {
      assert t[1..][1..] == s[1..][1..];
    } else {
      assert t[1..] == Swap(s[1..], i - 1, i);
      CountBelowSwap(x, s[1..], i - 1);
    }
  }

  /** Exchanging two different adjacent elements adds or removes exactly one
      inversion. */
  lemma {:induction false} InversionsSwap(s: seq<int>, i: nat)
    requires i + 1 < |s| && s[i] != s[i + 1]
    ensures Inversions(Swap(s, i, i + 1)) == Inversions(s) + 1 || Inversions(Swap(s, i, i + 1)) + 1 == Inversions(s)
  {
    var t := Swap(s, i, i + 1);
    if i == 0 {
      assert t[1..][1..] == s[1..][1..];
    } else {
      assert t[1..] == Swap(s[1..], i - 1, i);
      CountBelowSwap(s[0], s[1..], i - 1);
      InversionsSwap(s[1..], i - 1);
    }
  }

  lemma {:induction false} CountBelowNone(x: int, s: seq<int>)
    requires forall i :: 0 <= i < |s| ==> s[i] >= x
    ensures CountBelow(x, s) == 0
  {
    if s != [] {
      CountBelowNone(x, s[1..]);
    }
  }

  lemma {:induction false} AscendingInversions(s: seq<int>)
    requires forall i, j :: 0 <= i < j < |s| ==> s[i] < s[j]
    ensures Inversions(s) == 0
  {
    if s != [] {
      CountBelowNone(s[0], s[1..]);
      AscendingInversions(s[1..]);
    }
  }

  /** Each step changes the parity of the number of inversions, so the state
      at index k has an even number of them exactly when k is even. */
  lemma RunParity(n: nat, fuel: nat)
    ensures forall k :: 0 <= k < |Run(Start(n), fuel)| ==> Inversions(Run(Start(n), fuel)[k].values) % 2 == k % 2
  {
    forall k | 0 <= k < |Run(Start(n), fuel)|
      ensures Inversions(Run(Start(n), fuel)[k].values) % 2 == k % 2
    {
      StateParity(n, fuel, k);
    }
  }

  lemma {:induction false} StateParity(n: nat, fuel: nat, k: nat)
    requires k < |Run(Start(n), fuel)|
    ensures Inversions(Run(Start(n), fuel)[k].values) % 2 == k % 2
  {
    var states := Run(Start(n), fuel);
    if k == 0 {
      AscendingInversions(Start(n).values);
    } else {
      StateParity(n, fuel, k - 1);
      RunStatesValid(n, fuel, k - 1);
      RunIndex(Start(n), fuel, k - 1);
      StepInversions(states[k - 1], n);
      ParityFlip(Inversions(states[k - 1].values), Inversions(states[k].values), k);
    }
  }

  /** A step adds or removes exactly one inversion. */
  lemma StepInversions(st: State, n: nat)
    requires Valid(st, n) && Next(st).Some?
    ensures var m := Inversions(Next(st).value.values); m == Inversions(st.values) + 1 || m + 1 == Inversions(st.values)
  {
    var r := Largest(st, |st.values|);
    var i := r.0.value;
    var j := i + st.directions[i];
    if j == i + 1 {
      InversionsSwap(st.values, i);
    } else {
      SwapSymmetric(st.values, i, j);
      InversionsSwap(st.values, j);
    }
  }

  lemma ParityFlip(x: int, y: int, k: int)
    requires x % 2 == (k - 1) % 2 && (y == x + 1 || y + 1 == x)
    ensures y % 2 == k % 2
  {
  }
}
