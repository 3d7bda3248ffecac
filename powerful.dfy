/** "Nombres puissants": the numbers b2^2 * b3^3 with b2, b3 >= 1, generated
    in increasing order with a heap holding one entry (v, b2, b3) per b3. */
module PowerfulNumbers {

  /** A heap entry (b2^2 * b3^3, b2, b3). */
  type Entry = (nat, nat, nat)

  function Cube(b: nat): nat
  {
    b * b * b
  }

  function Form(b2: nat, b3: nat): nat
  {
    b2 * b2 * Cube(b3)
  }

  /** v is b2^2 * b3^3 for some b2, b3 >= 1. */
  ghost predicate IsPowerful(v: int)
  {
    exists b2: nat, b3: nat :: b2 >= 1 && b3 >= 1 && Form(b2, b3) == v
  }

  /** Python's order on the tuples (v, b2, b3). */
  predicate Before(x: Entry, y: Entry)
  {
    x.0 < y.0 || (x.0 == y.0 && (x.1 < y.1 || (x.1 == y.1 && x.2 <= y.2)))
  }

  /** The position of the least entry: what heappop removes. */
  function MinIndex(heap: seq<Entry>): (m: nat)
    requires heap != []
    ensures m < |heap| && forall j :: 0 <= j < |heap| ==> Before(heap[m], heap[j])
  {
    if |heap| == 1 then 0
    else
      var k := MinIndex(heap[..|heap| - 1]);
      if Before(heap[k], heap[|heap| - 1]) then k else |heap| - 1
  }

  /** The values of a list of entries. */
  function Values(out: seq<Entry>): seq<nat>
  {
    if out == [] then [] else Values(out[..|out| - 1]) + [out[|out| - 1].0]
  }

  lemma ValuesAppend(out: seq<Entry>, e: Entry)
    ensures Values(out + [e]) == Values(out) + [e.0]
  {
    assert (out + [e])[..|out|] == out;
  }

  lemma FormMonotone(x: nat, y: nat, c: nat)
    requires x <= y
    ensures Form(x, c) <= Form(y, c)
  {
    assert x * x <= y * y by {
      assert x * x <= x * y <= y * y;
    }
    assert Form(y, c) - Form(x, c) == (y * y - x * x) * Cube(c);
  }

  lemma FormStrict(x: nat, y: nat, c: nat)
    requires x < y && c >= 1
    ensures Form(x, c) < Form(y, c)
  {
    assert x * x < y * y by {
      assert x * x <= x * y < y * y;
    }
    assert Cube(c) >= 1 by {
      assert c * c >= 1;
    }
    assert Form(y, c) - Form(x, c) == (y * y - x * x) * Cube(c);
  }

  lemma CubeStrict(x: nat, y: nat)
    requires x < y
    ensures Cube(x) < Cube(y)
  {
    assert x * x <= x * y < y * y;
    assert x * x * x <= x * x * y;
  }

  /** b2 and b3^3 are both at most b2^2 * b3^3. */
  lemma FormBounds(b2: nat, b3: nat)
    requires b2 >= 1 && b3 >= 1
    ensures b2 <= Form(b2, b3) && Cube(b3) <= Form(b2, b3) && Form(b2, b3) >= 1
  {
    assert b3 * b3 >= 1;
    assert Cube(b3) >= 1;
    assert b2 * b2 >= b2;
    assert b2 * b2 * Cube(b3) >= b2 * b2;
    assert b2 * b2 * Cube(b3) >= 1 * Cube(b3);
  }

  /** Every powerful number is at least 1. */
  lemma PowerfulPositive(v: int)
    requires IsPowerful(v)
    ensures v >= 1
  {
    var b2: nat, b3: nat :| b2 >= 1 && b3 >= 1 && Form(b2, b3) == v;
    FormBounds(b2, b3);
  }

  /** Entry c - 1 of the heap is column c: its current b2, with every
      smaller b2 of the column already popped (at most lastV). */
  predicate Column(e: Entry, c: nat, lastV: nat)
  {
    e.2 == c && e.1 >= 1 && e.0 == Form(e.1, c) && e.0 >= lastV && Form(e.1 - 1, c) <= lastV
  }

  /** The yielded entry has the least b2 among the ways of writing its value. */
  ghost predicate LeastRep(e: Entry)
  {
    forall c2: nat, c3: nat :: c2 >= 1 && c3 >= 1 && Form(c2, c3) == e.0 ==> e.1 <= c2
  }

  /** What gen_powerful has yielded: entries of the right form, values
      strictly increasing, and every powerful number up to lastV. */
  ghost predicate Yielded(out: seq<Entry>, lastV: nat)
  {
    (forall i :: 0 <= i < |out| ==>
       out[i].1 >= 1 && out[i].2 >= 1 && out[i].0 == Form(out[i].1, out[i].2) && out[i].0 <= lastV && LeastRep(out[i]))
    && (forall i, j :: 0 <= i < j < |out| ==> out[i].0 < out[j].0)
    && (forall v: nat :: v in Values(out) <==> IsPowerful(v) && v <= lastV)
  }

  /** The state of gen_powerful inside the outer loop at b3: one column for
      each b3' < b3. */
  ghost predicate Heap(heap: seq<Entry>, b3: nat, out: seq<Entry>, lastV: nat)
  {
    b3 >= 2 && |heap| == b3 - 1 && lastV < Cube(b3)
    && (forall j :: 0 <= j < |heap| ==> Column(heap[j], j + 1, lastV))
    && Yielded(out, lastV)
  }

  /** A powerful w above lastV and below b3^3 has a column whose entry is at
      most w. */
  lemma ColumnBelow(heap: seq<Entry>, b3: nat, out: seq<Entry>, lastV: nat, w: nat, c2: nat, c3: nat)
    requires Heap(heap, b3, out, lastV)
    requires c2 >= 1 && c3 >= 1 && Form(c2, c3) == w && lastV < w < Cube(b3)
    ensures c3 - 1 < |heap| && heap[c3 - 1].0 <= w
  {
    FormBounds(c2, c3);
    if c3 >= b3 {
      if c3 > b3 {
        CubeStrict(b3, c3);
      }
      assert false;
    }
    var e := heap[c3 - 1];
    assert Column(e, c3, lastV);
    if e.1 - 1 >= c2 {
      FormMonotone(c2, e.1 - 1, c3);
    }
    FormMonotone(e.1, c2, c3);
  }

  /** The popped entry has the least b2 for its value, when it is new. */
  lemma PoppedLeast(heap: seq<Entry>, b3: nat, out: seq<Entry>, lastV: nat, m: nat)
    requires Heap(heap, b3, out, lastV) && heap != [] && m == MinIndex(heap)
    requires lastV < heap[m].0 < Cube(b3)
    ensures LeastRep(heap[m])
  {
    forall c2: nat, c3: nat | c2 >= 1 && c3 >= 1 && Form(c2, c3) == heap[m].0
      ensures heap[m].1 <= c2
    {
      PoppedBelowRep(heap, b3, out, lastV, m, c2, c3);
    }
  }

  lemma PoppedBelowRep(heap: seq<Entry>, b3: nat, out: seq<Entry>, lastV: nat, m: nat, c2: nat, c3: nat)
    requires Heap(heap, b3, out, lastV) && heap != [] && m == MinIndex(heap)
    requires lastV < heap[m].0 < Cube(b3)
    requires c2 >= 1 && c3 >= 1 && Form(c2, c3) == heap[m].0
    ensures heap[m].1 <= c2
  {
    var e := heap[m];
    ColumnBelow(heap, b3, out, lastV, e.0, c2, c3);
    var f := heap[c3 - 1];
    assert Column(f, c3, lastV);
    assert Before(e, f);
    if f.1 < c2 {
      FormStrict(f.1, c2, c3);
    } else if f.1 > c2 {
      FormStrict(c2, f.1, c3);
    }
  }

  /** Nothing powerful lies strictly between lastV and the least entry. */
  lemma NoneSkipped(heap: seq<Entry>, b3: nat, out: seq<Entry>, lastV: nat, w: nat, bound: nat)
    requires Heap(heap, b3, out, lastV) && heap != []
    requires bound <= heap[MinIndex(heap)].0 && bound <= Cube(b3)
    requires IsPowerful(w) && w < bound
    ensures w <= lastV
  {
    if w > lastV {
      var c2: nat, c3: nat :| c2 >= 1 && c3 >= 1 && Form(c2, c3) == w;
      ColumnBelow(heap, b3, out, lastV, w, c2, c3);
    }
  }

  /** The new yield list after popping e: e is appended when its value is
      above lastV. */
  lemma PopYields(heap: seq<Entry>, b3: nat, out: seq<Entry>, lastV: nat, m: nat)
    requires Heap(heap, b3, out, lastV) && heap != [] && m == MinIndex(heap)
    requires heap[m].0 < Cube(b3)
    ensures heap[m].0 > lastV ==> Yielded(out + [heap[m]], heap[m].0)
    ensures heap[m].0 <= lastV ==> heap[m].0 == lastV
  {
    var e := heap[m];
    assert Column(e, m + 1, lastV);
    if e.0 > lastV {
      PoppedLeast(heap, b3, out, lastV, m);
      ValuesAppend(out, e);
      forall v: nat | IsPowerful(v) && v <= e.0
        ensures v in Values(out + [e])
      {
        if v < e.0 {
          NoneSkipped(heap, b3, out, lastV, v, e.0);
        }
      }
      assert IsPowerful(e.0) by {
        assert e.1 >= 1 && e.2 >= 1 && Form(e.1, e.2) == e.0;
      }
    }
  }

  /** The entry that replaces the popped one: the next b2 of its column. */
  function Next(e: Entry): Entry
  {
    (Form(e.1 + 1, e.2), e.1 + 1, e.2)
  }

  /** Replacing the popped entry by the next b2 of its column keeps every
      column in shape, with the popped value as the new low mark. */
  lemma PopColumns(heap: seq<Entry>, b3: nat, out: seq<Entry>, lastV: nat, m: nat, heap': seq<Entry>)
    requires Heap(heap, b3, out, lastV) && heap != [] && m == MinIndex(heap)
    requires heap' == heap[m := Next(heap[m])]
    ensures forall j :: 0 <= j < |heap'| ==> Column(heap'[j], j + 1, heap[m].0)
  {
    var e := heap[m];
    assert Column(e, m + 1, lastV);
    FormMonotone(e.1, e.1 + 1, e.2);
    forall j | 0 <= j < |heap|
      ensures Column(heap'[j], j + 1, e.0)
    {
      assert Column(heap[j], j + 1, lastV) && Before(e, heap[j]);
    }
  }

  /** One pop and push of the inner loop keeps the heap invariant. */
  lemma Pop(heap: seq<Entry>, b3: nat, out: seq<Entry>, lastV: nat, m: nat,
            heap': seq<Entry>, out': seq<Entry>, lastV': nat)
    requires Heap(heap, b3, out, lastV) && heap != [] && m == MinIndex(heap)
    requires heap[m].0 < Cube(b3)
    requires heap' == heap[m := Next(heap[m])]
    requires out' == (if heap[m].0 > lastV then out + [heap[m]] else out)
    requires lastV' == if heap[m].0 > lastV then heap[m].0 else lastV
    ensures Heap(heap', b3, out', lastV')
  {
    PopYields(heap, b3, out, lastV, m);
    PopColumns(heap, b3, out, lastV, m, heap');
  }

  /** The inner loop's measure drops at every pop. */
  lemma PopSlack(heap: seq<Entry>, b3: nat, out: seq<Entry>, lastV: nat, m: nat)
    requires Heap(heap, b3, out, lastV) && heap != [] && m == MinIndex(heap)
    requires heap[m].0 < Cube(b3)
    ensures Slack(heap[m := Next(heap[m])], Cube(b3)) < Slack(heap, Cube(b3))
  {
    assert Column(heap[m], m + 1, lastV);
    FormBounds(heap[m].1, heap[m].2);
    SlackDrop(heap, Cube(b3), m, Next(heap[m]));
  }

  /** Pushing (b3^3, 1, b3) once every entry is at least b3^3 opens the
      column b3. */
  lemma Push(heap: seq<Entry>, b3: nat, out: seq<Entry>, lastV: nat)
    requires Heap(heap, b3, out, lastV)
    requires forall j :: 0 <= j < |heap| ==> heap[j].0 >= Cube(b3)
    ensures Heap(heap + [(Cube(b3), 1, b3)], b3 + 1, out, lastV)
  {
    CubeStrict(b3, b3 + 1);
    var heap' := heap + [(Cube(b3), 1, b3)];
    forall j | 0 <= j < |heap'|
      ensures Column(heap'[j], j + 1, lastV)
    {
      if j < |heap| {
        assert heap'[j] == heap[j];
      }
    }
  }

  /** How far each column's b2 is below top: the inner loop's measure. */
  function Slack(heap: seq<Entry>, top: nat): nat
  {
    if heap == [] then 0
    else Slack(heap[..|heap| - 1], top) + (if heap[|heap| - 1].1 < top then top - heap[|heap| - 1].1 else 0)
  }

  lemma {:induction false} SlackDrop(heap: seq<Entry>, top: nat, m: nat, e: Entry)
    requires m < |heap| && heap[m].1 < top && e.1 == heap[m].1 + 1
    ensures Slack(heap[m := e], top) < Slack(heap, top)
    decreases |heap|
  {
    var n := |heap| - 1;
    assert heap[m := e][..n] == if m == n then heap[..n] else heap[..n][m := e];
    if m < n {
      SlackDrop(heap[..n], top, m, e);
    }
  }

  /** The inner loop of gen_powerful at b3: pop every entry below b3^3,
      yielding its value when it exceeds the last one yielded, and push the
      next b2 of its column. */
  method PopBelow(heap: seq<Entry>, b3: nat, out: seq<Entry>, lastV: nat)
    returns (heap': seq<Entry>, out': seq<Entry>, lastV': nat)
    requires Heap(heap, b3, out, lastV)
    ensures Heap(heap', b3, out', lastV')
    ensures forall j :: 0 <= j < |heap'| ==> heap'[j].0 >= Cube(b3)
  {
    heap', out', lastV' := heap, out, lastV;
    var nextV := b3 * b3 * b3;
    while heap'[MinIndex(heap')].0 < nextV
      invariant Heap(heap', b3, out', lastV')
      decreases Slack(heap', Cube(b3))
    {
      var m := MinIndex(heap');
      var (v, b2, c) := heap'[m];
      var next := ((b2 + 1) * (b2 + 1) * (c * c * c), b2 + 1, c);
      assert next == Next(heap'[m]);
      var heap2, out2, last2 := heap'[m := next], out', lastV';
      if v > lastV' {
        last2 := v;
        out2 := out' + [(v, b2, c)];
      }
      Pop(heap', b3, out', lastV', m, heap2, out2, last2);
      PopSlack(heap', b3, out', lastV', m);
      heap', out', lastV' := heap2, out2, last2;
    }
  }

  /** out lists, in strictly increasing order and once each, exactly the
      powerful numbers below bound, each with b2 >= 1, b3 >= 1, the least b2
      possible, and v == b2^2 * b3^3. */
  ghost predicate Enumerated(out: seq<Entry>, bound: nat)
  {
    (forall i :: 0 <= i < |out| ==>
       out[i].1 >= 1 && out[i].2 >= 1 && out[i].0 == Form(out[i].1, out[i].2) && LeastRep(out[i]))
    && (forall i, j :: 0 <= i < j < |out| ==> out[i].0 < out[j].0)
    && (forall v: nat :: v in Values(out) <==> IsPowerful(v) && v < bound)
  }

  /** gen_powerful, with the outer loop run for b3 = 2, ..., top: it yields
      exactly the powerful numbers below top^3. */
  method GenPowerful(top: nat) returns (out: seq<Entry>)
    ensures Enumerated(out, Cube(top))
  {
    var heap: seq<Entry> := [(1, 1, 1)];
    var lastV: nat := 0;
    out := [];
    var b3: nat := 2;
    assert Column(heap[0], 1, 0);
    forall w | IsPowerful(w) && w < Cube(1)
      ensures false
    {
      PowerfulPositive(w);
    }
    while b3 <= top
      invariant Heap(heap, b3, out, lastV)
      invariant lastV < Cube(b3 - 1)
      invariant forall w :: IsPowerful(w) && w < Cube(b3 - 1) ==> w <= lastV
      invariant b3 <= top + 1 || b3 == 2
    {
      heap, out, lastV := PopBelow(heap, b3, out, lastV);
      forall w | IsPowerful(w) && w < Cube(b3)
        ensures w <= lastV
      {
        NoneSkipped(heap, b3, out, lastV, w, Cube(b3));
      }
      Push(heap, b3, out, lastV);
      heap := heap + [(b3 * b3 * b3, 1, b3)];
      b3 := b3 + 1;
    }
    Finish(out, lastV, top, b3);
  }

  lemma Finish(out: seq<Entry>, lastV: nat, top: nat, b3: nat)
    requires b3 >= 2 && Yielded(out, lastV) && lastV < Cube(b3 - 1)
    requires forall w :: IsPowerful(w) && w < Cube(b3 - 1) ==> w <= lastV
    requires b3 == top + 1 || (b3 == 2 && top <= 1)
    ensures Enumerated(out, Cube(top))
  {
    forall v: nat
      ensures v in Values(out) <==> IsPowerful(v) && v < Cube(top)
    {
      if v in Values(out) && b3 == 2 {
        PowerfulPositive(v);
      }
      if b3 == 2 && top == 0 {
        assert Cube(top) == 0;
      }
    }
  }

  /** The first value yielded is 1 == 1^2 * 1^3. */
  lemma FirstIsOne(out: seq<Entry>, bound: nat)
    requires Enumerated(out, bound) && bound > 1
    ensures out != [] && out[0] == (1, 1, 1)
  {
    assert Form(1, 1) == 1;
    assert 1 in Values(out);
    var i :| 0 <= i < |out| && out[i].0 == 1 by {
      ValuesMembers(out);
    }
    if i > 0 {
      FormBounds(out[0].1, out[0].2);
    }
    var e := out[0];
    FormBounds(e.1, e.2);
    if e.2 > 1 {
      CubeStrict(1, e.2);
    }
  }

  lemma {:induction false} ValuesMembers(out: seq<Entry>)
    ensures forall v :: v in Values(out) <==> exists i :: 0 <= i < |out| && out[i].0 == v
  {
    if out != [] {
      ValuesMembers(out[..|out| - 1]);
    }
  }
}
