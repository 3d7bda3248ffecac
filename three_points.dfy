/** "3 points non alignés": 2n pawns on an n x n grid, two per column, no
    three of them on one line, placed by backtracking over the rows and
    checked with the triple (X, Y, K) of each line X col - Y row == K. */
module ThreePoints {
  import opened Numbers
  import opened Bezout

  /** A line X col - Y row == K, as the triple (X, Y, K). */
  datatype Line = Line(x: int, y: int, k: int)

  /** A grid square, (row, col). */
  type Point = (int, int)

  /** The point (row, col) lies on l. */
  predicate OnLine(l: Line, row: int, col: int)
  {
    l.x * col - l.y * row == l.k
  }

  function Neg(l: Line): Line
  {
    Line(-l.x, -l.y, -l.k)
  }

  /** math.gcd(a, b, c): the gcd of the absolute values, 0 only for zeros. */
  function Gcd3(a: int, b: int, c: int): nat
  {
    Gcd(Gcd(Abs(a), Abs(b)), Abs(c))
  }

  /** The three numbers of l have no common factor. */
  predicate Primitive(l: Line)
  {
    Gcd3(l.x, l.y, l.k) == 1
  }

  /** q, p and r are on one line: the cross product of q - p and r - p
      vanishes. */
  predicate Collinear(p: Point, q: Point, r: Point)
  {
    (q.0 - p.0) * (r.1 - p.1) == (q.1 - p.1) * (r.0 - p.0)
  }

  lemma Gcd3Divides(a: int, b: int, c: int)
    ensures Divides(Gcd3(a, b, c), a) && Divides(Gcd3(a, b, c), b) && Divides(Gcd3(a, b, c), c)
  {
    var g2 := Gcd(Abs(a), Abs(b));
    GcdDividesBoth(g2, Abs(c));
    GcdDividesBoth(Abs(a), Abs(b));
    DividesTransitive(Gcd3(a, b, c), g2, Abs(a));
    DividesTransitive(Gcd3(a, b, c), g2, Abs(b));
    DividesFromAbs(Gcd3(a, b, c), a);
    DividesFromAbs(Gcd3(a, b, c), b);
    DividesFromAbs(Gcd3(a, b, c), c);
  }

  lemma Gcd3Greatest(a: int, b: int, c: int, e: int)
    requires Divides(e, a) && Divides(e, b) && Divides(e, c)
    ensures Divides(e, Gcd3(a, b, c))
  {
    DividesAbs(e, a);
    DividesAbs(e, b);
    DividesAbs(e, c);
    CommonDivisorDividesGcd(Abs(a), Abs(b), e);
    CommonDivisorDividesGcd(Gcd(Abs(a), Abs(b)), Abs(c), e);
  }

  lemma Gcd3Zero(a: int, b: int, c: int)
    ensures Gcd3(a, b, c) == 0 <==> a == 0 && b == 0 && c == 0
  {
    GcdZeroOnlyForZeros(Abs(a), Abs(b));
    GcdZeroOnlyForZeros(Gcd(Abs(a), Abs(b)), Abs(c));
  }

  /** A primitive triple has Bezout coefficients for 1. */
  lemma Combination(l: Line) returns (s: int, t: int, u: int)
    requires Primitive(l)
    ensures s * l.x + t * l.y + u * l.k == 1
  {
    var r := Gcde(l.x, l.y);
    GcdeIsGcd(l.x, l.y);
    assert Coprime(r.0, l.k);
    var p, q := CoprimeWitness(r.0, l.k);
    s, t, u := r.1 * p, r.2 * p, q;
    Spread(l.x, l.y, r.1, r.2, p);
  }

  lemma Spread(x: int, y: int, r1: int, r2: int, p: int)
    ensures (x * r1 + y * r2) * p == (r1 * p) * x + (r2 * p) * y
  {
  }

  lemma Cancel(m: int, p: int, q: int)
    requires m != 0 && m * p == m * q
    ensures p == q
  {
    if p < q {
      if m > 0 { MulStrict(m, p, q); } else { MulStrict(-m, p, q); }
    } else if q < p {
      if m > 0 { MulStrict(m, q, p); } else { MulStrict(-m, q, p); }
    }
  }

  lemma ExactQuotient(n: int, d: int)
    requires d != 0 && Divides(d, n)
    ensures n == d * (n / d)
  {
  }

  /** Dividing (dx, dy, k) by their gcd, with the sign of k, leaves a
      primitive triple with K >= 0 that is a multiple of nothing else. */
  lemma Reduce(dx: int, dy: int, k: int, s: int)
    requires (dx, dy) != (0, 0) && s == (if k < 0 then -(Gcd3(dx, dy, k) as int) else Gcd3(dx, dy, k))
    ensures s != 0 && dx == s * (dx / s) && dy == s * (dy / s) && k == s * (k / s)
    ensures k / s >= 0 && (dx / s, dy / s) != (0, 0) && Primitive(Line(dx / s, dy / s, k / s))
  {
    var g := Gcd3(dx, dy, k);
    Gcd3Zero(dx, dy, k);
    Gcd3Divides(dx, dy, k);
    if k < 0 {
      DividesNegate(g, dx);
      DividesNegate(g, dy);
      DividesNegate(g, k);
    }
    ExactQuotient(dx, s);
    ExactQuotient(dy, s);
    ExactQuotient(k, s);
    var x, y, z := dx / s, dy / s, k / s;
    if z < 0 {
      if k < 0 { MulStrict(-s, z, 0); } else { MulStrict(s, z, 0); }
    }
    var h := Gcd3(x, y, z);
    Gcd3Zero(x, y, z);
    Gcd3Divides(x, y, z);
    var hx := DividesWitness(h, x);
    var hy := DividesWitness(h, y);
    var hz := DividesWitness(h, z);
    Regroup(s, h, hx, x);
    Regroup(s, h, hy, y);
    Regroup(s, h, hz, z);
    DividesMultiple(h * s, hx);
    DividesMultiple(h * s, hy);
    DividesMultiple(h * s, hz);
    Gcd3Greatest(dx, dy, k, h * s);
    DividesAbs(h * s, g);
    assert Abs(h * s) == h * g;
    DividesBound(h * g, g);
    if h > 1 {
      MulStrict(g, 1, h);
    }
  }

  lemma Regroup(s: int, h: int, q: int, x: int)
    requires x == h * q
    ensures s * x == (h * s) * q
  {
  }

  /** get_line(a, b, c, d): the line through the distinct points (a, b)
      and (c, d), divided by the gcd of its triple, signed so that K >= 0. */
  function GetLine(a: int, b: int, c: int, d: int): (l: Line)
    requires (a, b) != (c, d)
    ensures OnLine(l, a, b) && OnLine(l, c, d)
    ensures l.k >= 0 && (l.x, l.y) != (0, 0) && Primitive(l)
  {
    var dx, dy := c - a, d - b;
    var k := dx * b - dy * a;
    var g: int := Gcd3(dx, dy, k);
    var s := if k < 0 then -g else g;
    Reduce(dx, dy, k, s);
    ThroughBoth(dx / s, dy / s, k / s, s, a, b, c, d);
    Line(dx / s, dy / s, k / s)
  }

  /** The scaled-down triple still passes through both points. */
  lemma ThroughBoth(x: int, y: int, z: int, s: int, a: int, b: int, c: int, d: int)
    requires s != 0 && c - a == s * x && d - b == s * y && (c - a) * b - (d - b) * a == s * z
    ensures x * b - y * a == z && x * d - y * c == z
  {
    assert s * (x * b - y * a) == s * z;
    Cancel(s, x * b - y * a, z);
    assert s * (x * d - y * c) == (c - a) * d - (d - b) * c;
    Cancel(s, x * d - y * c, z);
  }

  /** The triple of get_line times a non-zero s is the raw triple
      (c - a, d - b, (c - a) b - (d - b) a). */
  lemma GetLineScale(a: int, b: int, c: int, d: int) returns (s: int)
    requires (a, b) != (c, d)
    ensures s != 0 && var l := GetLine(a, b, c, d);
      c - a == s * l.x && d - b == s * l.y && (c - a) * b - (d - b) * a == s * l.k
  {
    var dx, dy := c - a, d - b;
    var k := dx * b - dy * a;
    var g: int := Gcd3(dx, dy, k);
    s := if k < 0 then -g else g;
    Reduce(dx, dy, k, s);
  }

  lemma Negated(l: Line)
    ensures Gcd3(-l.x, -l.y, -l.k) == Gcd3(l.x, l.y, l.k)
  {
    assert Abs(-l.x) == Abs(l.x) && Abs(-l.y) == Abs(l.y) && Abs(-l.k) == Abs(l.k);
  }

  /** b == a (s v1 + t v2 + u v3) when a v == b w and s w1 + t w2 + u w3 == 1. */
  lemma Combine(a: int, b: int, v1: int, v2: int, v3: int, w1: int, w2: int, w3: int, s: int, t: int, u: int)
    requires a * v1 == b * w1 && a * v2 == b * w2 && a * v3 == b * w3 && s * w1 + t * w2 + u * w3 == 1
    ensures b == a * (s * v1 + t * v2 + u * v3)
  {
    calc {
      a * (s * v1 + t * v2 + u * v3);
      s * (a * v1) + t * (a * v2) + u * (a * v3);
      s * (b * w1) + t * (b * w2) + u * (b * w3);
      b * (s * w1 + t * w2 + u * w3);
    }
  }

  /** Two primitive triples that are multiples of one another agree up to
      sign. */
  lemma ScaledPrimitive(v: Line, w: Line, a: int, b: int)
    requires Primitive(v) && Primitive(w) && a != 0 && b != 0
    requires a * v.x == b * w.x && a * v.y == b * w.y && a * v.k == b * w.k
    ensures v == w || v == Neg(w)
  {
    var s, t, u := Combination(w);
    var s', t', u' := Combination(v);
    Combine(a, b, v.x, v.y, v.k, w.x, w.y, w.k, s, t, u);
    Combine(b, a, w.x, w.y, w.k, v.x, v.y, v.k, s', t', u');
    DividesMultiple(a, s * v.x + t * v.y + u * v.k);
    DividesMultiple(b, s' * w.x + t' * w.y + u' * w.k);
    DividesAbs(a, b);
    DividesAbs(b, a);
    MutualDivides(a, Abs(b));
    if a == b {
      Cancel(a, v.x, w.x);
      Cancel(a, v.y, w.y);
      Cancel(a, v.k, w.k);
    } else {
      assert b == -a;
      Opposite(a, v.x, w.x);
      Opposite(a, v.y, w.y);
      Opposite(a, v.k, w.k);
    }
  }

  lemma Opposite(a: int, p: int, q: int)
    requires a != 0 && a * p == -a * q
    ensures p == -q
  {
    assert a * p == a * -q;
    Cancel(a, p, -q);
  }

  /** Two points p, q on a line l: the raw triple of p and q is a non-zero
      multiple of l's, in the ratio given by a coordinate of l that is not
      zero. */
  lemma RawMultiple(x: int, y: int, z: int, pr: int, pc: int, qr: int, qc: int) returns (a: int, b: int)
    requires (x, y) != (0, 0) && (pr, pc) != (qr, qc)
    requires x * pc - y * pr == z && x * qc - y * qr == z
    ensures a != 0 && b != 0
    ensures var ex, ey := qr - pr, qc - pc;
      a * ex == b * x && a * ey == b * y && a * (ex * pc - ey * pr) == b * z
  {
    var ex, ey := qr - pr, qc - pc;
    assert x * ey == y * ex;
    if x != 0 {
      a, b := x, ex;
      if ex == 0 {
        Cancel(x, ey, 0);
      }
      assert x * (ex * pc - ey * pr) == ex * (x * pc) - (x * ey) * pr;
      assert ex * (x * pc) - (y * ex) * pr == ex * (x * pc - y * pr);
    } else {
      a, b := y, ey;
      if ey == 0 {
        Cancel(y, ex, 0);
      }
      assert y * (ex * pc - ey * pr) == (y * ex) * pc - ey * (y * pr);
      assert (x * ey) * pc - ey * (y * pr) == ey * (x * pc - y * pr);
    }
  }

  /** Any two distinct points of a primitive line give that line back from
      get_line, up to the sign of the whole triple. */
  lemma LineThrough(l: Line, p: Point, q: Point)
    requires Primitive(l) && p != q && OnLine(l, p.0, p.1) && OnLine(l, q.0, q.1)
    ensures GetLine(p.0, p.1, q.0, q.1) == l || GetLine(p.0, p.1, q.0, q.1) == Neg(l)
  {
    if l.x == 0 && l.y == 0 {
      Gcd3Zero(l.x, l.y, l.k);
      assert false;
    }
    var m := GetLine(p.0, p.1, q.0, q.1);
    var s := GetLineScale(p.0, p.1, q.0, q.1);
    var a, b := RawMultiple(l.x, l.y, l.k, p.0, p.1, q.0, q.1);
    var ex, ey := q.0 - p.0, q.1 - p.1;
    Chain(a, s, m.x, ex, b, l.x);
    Chain(a, s, m.y, ey, b, l.y);
    Chain(a, s, m.k, ex * p.1 - ey * p.0, b, l.k);
    NonZero(a, s);
    ScaledPrimitive(m, l, a * s, b);
  }

  lemma Chain(a: int, s: int, mx: int, ex: int, b: int, lx: int)
    requires ex == s * mx && a * ex == b * lx
    ensures (a * s) * mx == b * lx
  {
  }

  lemma NonZero(a: int, s: int)
    requires a != 0 && s != 0
    ensures a * s != 0
  {
  }

  /** When the line misses the origin (K > 0), get_line is a canonical
      form: every pair of its points gives the same triple. */
  lemma OffOriginCanonical(l: Line, p: Point, q: Point)
    requires Primitive(l) && l.k > 0 && p != q && OnLine(l, p.0, p.1) && OnLine(l, q.0, q.1)
    ensures GetLine(p.0, p.1, q.0, q.1) == l
  {
    LineThrough(l, p, q);
  }

  /** For distinct p and q, r is on the line get_line finds exactly when
      p, q and r are collinear. */
  lemma CollinearOnLine(p: Point, q: Point, r: Point)
    requires p != q
    ensures OnLine(GetLine(p.0, p.1, q.0, q.1), r.0, r.1) <==> Collinear(p, q, r)
  {
    var l := GetLine(p.0, p.1, q.0, q.1);
    var s := GetLineScale(p.0, p.1, q.0, q.1);
    CrossOnLine(s, l.x, l.y, l.k, q.0 - p.0, q.1 - p.1, p.0, p.1, r.0, r.1);
  }

  lemma CrossOnLine(s: int, lx: int, ly: int, lk: int, ex: int, ey: int, p0: int, p1: int, r0: int, r1: int)
    requires s != 0 && ex == s * lx && ey == s * ly && ex * p1 - ey * p0 == s * lk
    ensures lx * r1 - ly * r0 == lk <==> ex * (r1 - p1) == ey * (r0 - p0)
  {
    assert s * (lx * r1 - ly * r0) == ex * r1 - ey * r0;
    assert ex * (r1 - p1) - ey * (r0 - p0) == (ex * r1 - ey * r0) - (ex * p1 - ey * p0);
    if ex * (r1 - p1) == ey * (r0 - p0) {
      Cancel(s, lx * r1 - ly * r0, lk);
    }
  }

  /** Pawns in the second column of a line of three: the points (6, 3),
      (4, 2) and (2, 1) are collinear on a line through the origin, yet
      get_line gives the pair (6, 3), (4, 2) and the pair (2, 1), (4, 2)
      opposite triples, so the test in solve does not see the line twice. */
  lemma OriginSignClash()
    ensures Collinear((6, 3), (4, 2), (2, 1))
    ensures GetLine(6, 3, 4, 2) == Line(-2, -1, 0) && GetLine(2, 1, 4, 2) == Line(2, 1, 0)
    ensures GetLine(6, 3, 4, 2) != GetLine(2, 1, 4, 2)
  {
    assert Gcd(1, 0) == 1;
    assert Gcd(2, 1) == 1;
    assert Gcd3(-2, -1, 0) == 1;
    assert Gcd3(2, 1, 0) == 1;
    assert GetLine(6, 3, 4, 2) == Line(-2 / 1, -1 / 1, 0 / 1);
    assert GetLine(2, 1, 4, 2) == Line(2 / 1, 1 / 1, 0 / 1);
  }

  /** The triple's sign is fixed: K > 0, or K == 0 and (X, Y) points to
      positive X, or X == 0 and Y > 0. */
  predicate Upright(l: Line)
  {
    l.k > 0 || (l.k == 0 && (l.x > 0 || (l.x == 0 && l.y > 0)))
  }

  /** get_line with the sign of (X, Y) fixed also when K == 0: a canonical
      form of the line whatever the pair of its points. */
  function CanonicalLine(a: int, b: int, c: int, d: int): (l: Line)
    requires (a, b) != (c, d)
    ensures OnLine(l, a, b) && OnLine(l, c, d) && Primitive(l) && Upright(l)
  {
    var l := GetLine(a, b, c, d);
    Negated(l);
    if l.k == 0 && (l.x < 0 || (l.x == 0 && l.y < 0)) then Neg(l) else l
  }

  /** Any two distinct points of an upright primitive line give exactly
      that line from the corrected get_line. */
  lemma CanonicalUnique(l: Line, p: Point, q: Point)
    requires Primitive(l) && Upright(l) && p != q && OnLine(l, p.0, p.1) && OnLine(l, q.0, q.1)
    ensures CanonicalLine(p.0, p.1, q.0, q.1) == l
  {
    LineThrough(l, p, q);
  }

  // ---------------------------------------------------------------------
  // The backtracking search.

  /** The line of a pair of pawns, as written or with the corrected sign. */
  function PawnLine(fixed: bool, a: int, b: int, c: int, d: int): Line
    requires (a, b) != (c, d)
  {
    if fixed then CanonicalLine(a, b, c, d) else GetLine(a, b, c, d)
  }

  /** Pawn i of the list sits in column i % n. */
  function At(pawns: seq<int>, n: int, i: int): Point
    requires n >= 1 && 0 <= i < |pawns|
  {
    (pawns[i], i % n)
  }

  /** The first pawns of a placement: at most 2n of them, and pawn i + n
      below pawn i in their shared column. */
  predicate Shaped(pawns: seq<int>, n: int)
  {
    n >= 1 && |pawns| <= 2 * n && forall i :: n <= i < |pawns| ==> pawns[i] > pawns[i - n]
  }

  /** Every pawn is on the grid. */
  predicate OnGrid(pawns: seq<int>, n: int)
  {
    forall i :: 0 <= i < |pawns| ==> 0 <= pawns[i] < n
  }

  /** Two pawns of a shaped list never share a square. */
  lemma Apart(pawns: seq<int>, n: int, i: int, j: int)
    requires Shaped(pawns, n) && 0 <= j < i < |pawns|
    ensures At(pawns, n, i) != At(pawns, n, j)
  {
    Column(i, n);
    Column(j, n);
  }

  /** The column of an index below 2n. */
  lemma Column(i: int, n: int)
    requires n >= 1 && 0 <= i < 2 * n
    ensures i % n == if i < n then i else i - n
  {
    if i < n {
      DivModUnique(i, n, 0, i);
    } else {
      DivModUnique(i, n, 1, i - n);
    }
  }

  /** get_line(pawns[i], i % n, pawns[j], j % n) for j < i. */
  function Link(fixed: bool, pawns: seq<int>, n: int, i: int, j: int): Line
    requires Shaped(pawns, n) && 0 <= j < i < |pawns|
  {
    Apart(pawns, n, i, j);
    PawnLine(fixed, pawns[i], i % n, pawns[j], j % n)
  }

  /** new_lines: the lines from the last pawn of the list to the others. */
  function NewLines(fixed: bool, pawns: seq<int>, n: int): set<Line>
    requires Shaped(pawns, n) && pawns != []
  {
    var last := |pawns| - 1;
    set j | 0 <= j < last :: Link(fixed, pawns, n, last, j)
  }

  /** The lines through two of the pawns of the list, all at once. */
  function PairLines(fixed: bool, pawns: seq<int>, n: int): set<Line>
    requires Shaped(pawns, n)
  {
    set i, j | 0 <= j < i < |pawns| :: Link(fixed, pawns, n, i, j)
  }

  /** No line from pawn i to an earlier pawn is a line through two pawns
      before i. */
  predicate DistinctLines(fixed: bool, pawns: seq<int>, n: int)
    requires Shaped(pawns, n)
  {
    forall i, j, c, d :: 0 <= j < i < |pawns| && 0 <= d < c < i ==>
      Link(fixed, pawns, n, i, j) != Link(fixed, pawns, n, c, d)
  }

  /** No three pawns on one line. */
  predicate NoThreeAligned(pawns: seq<int>, n: int)
    requires n >= 1
  {
    forall a, b, c :: 0 <= a < b < c < |pawns| ==>
      !Collinear(At(pawns, n, a), At(pawns, n, b), At(pawns, n, c))
  }

  lemma CollinearRotate(p: Point, q: Point, r: Point)
    requires Collinear(p, q, r)
    ensures Collinear(q, p, r)
  {
    assert (p.0 - q.0) * (r.1 - q.1) == (q.0 - p.0) * (q.1 - p.1) - (q.0 - p.0) * (r.1 - p.1);
    assert (p.1 - q.1) * (r.0 - q.0) == (q.1 - p.1) * (q.0 - p.0) - (q.1 - p.1) * (r.0 - p.0);
  }

  /** With the corrected triples, a placement whose every pawn was
      accepted has no three pawns on one line. */
  lemma AcceptedNoThree(pawns: seq<int>, n: int)
    requires Shaped(pawns, n) && Accepted(true, pawns, n)
    ensures NoThreeAligned(pawns, n)
  {
    AcceptedDistinct(true, pawns, n);
    forall a, b, c | 0 <= a < b < c < |pawns|
      ensures !Collinear(At(pawns, n, a), At(pawns, n, b), At(pawns, n, c))
    {
      DistinctPair(true, pawns, n, c, a, b, a);
      TripleApart(pawns, n, a, b, c);
    }
  }

  /** One instance of Accepted. */
  lemma DistinctPair(fixed: bool, pawns: seq<int>, n: int, i: int, j: int, c: int, d: int)
    requires Shaped(pawns, n) && DistinctLines(fixed, pawns, n)
    requires 0 <= j < i < |pawns| && 0 <= d < c < i
    ensures Link(fixed, pawns, n, i, j) != Link(fixed, pawns, n, c, d)
  {
  }

  /** Pawns a < b < c whose corrected lines to pawn a differ are not
      collinear. */
  lemma TripleApart(pawns: seq<int>, n: int, a: int, b: int, c: int)
    requires Shaped(pawns, n) && 0 <= a < b < c < |pawns|
    requires Link(true, pawns, n, c, a) != Link(true, pawns, n, b, a)
    ensures !Collinear(At(pawns, n, a), At(pawns, n, b), At(pawns, n, c))
  {
    Apart(pawns, n, b, a);
    Apart(pawns, n, c, a);
    var pa, pb, pc := At(pawns, n, a), At(pawns, n, b), At(pawns, n, c);
    if Collinear(pa, pb, pc) {
      SharedLine(pa, pb, pc);
      assert false;
    }
  }

  /** Three collinear points, the first apart from the other two: the
      corrected lines from the second and from the third to the first
      coincide. */
  lemma SharedLine(pa: Point, pb: Point, pc: Point)
    requires pa != pb && pa != pc && Collinear(pa, pb, pc)
    ensures CanonicalLine(pc.0, pc.1, pa.0, pa.1) == CanonicalLine(pb.0, pb.1, pa.0, pa.1)
  {
    CollinearRotate(pa, pb, pc);
    CollinearOnLine(pb, pa, pc);
    CanonicalOnLine(pb.0, pb.1, pa.0, pa.1, pc);
    var l := CanonicalLine(pb.0, pb.1, pa.0, pa.1);
    CanonicalUnique(l, pc, pa);
  }

  /** The corrected line holds the same points as get_line's. */
  lemma CanonicalOnLine(a: int, b: int, c: int, d: int, r: Point)
    requires (a, b) != (c, d)
    ensures OnLine(CanonicalLine(a, b, c, d), r.0, r.1) <==> OnLine(GetLine(a, b, c, d), r.0, r.1)
  {
    var m := GetLine(a, b, c, d);
    NegOnLine(m.x, m.y, m.k, r.0, r.1);
  }

  lemma NegOnLine(x: int, y: int, k: int, row: int, col: int)
    ensures (-x) * col - (-y) * row == -k <==> x * col - y * row == k
  {
    assert (-x) * col - (-y) * row == -(x * col - y * row);
  }

  // ---------------------------------------------------------------------
  // Growing the placement one pawn at a time.

  /** A prefix of a shaped list gives the same lines as the whole list. */
  lemma LinkPrefix(fixed: bool, pawns: seq<int>, n: int, k: int, i: int, j: int)
    requires Shaped(pawns, n) && 0 <= j < i < k <= |pawns|
    ensures Shaped(pawns[..k], n) && Link(fixed, pawns[..k], n, i, j) == Link(fixed, pawns, n, i, j)
  {
  }

  /** The lines among a list are the lines among all but its last pawn
      together with new_lines of the list. */
  lemma LinesGrow(fixed: bool, pawns: seq<int>, n: int)
    requires Shaped(pawns, n) && pawns != []
    ensures Shaped(pawns[..|pawns| - 1], n)
    ensures PairLines(fixed, pawns, n) ==
      PairLines(fixed, pawns[..|pawns| - 1], n) + NewLines(fixed, pawns, n)
  {
    forall l | l in PairLines(fixed, pawns, n)
      ensures l in PairLines(fixed, pawns[..|pawns| - 1], n) + NewLines(fixed, pawns, n)
    {
      var i, j :| 0 <= j < i < |pawns| && l == Link(fixed, pawns, n, i, j);
      LineSplits(fixed, pawns, n, i, j);
    }
    forall l | l in PairLines(fixed, pawns[..|pawns| - 1], n)
      ensures l in PairLines(fixed, pawns, n)
    {
      var pre := pawns[..|pawns| - 1];
      var i, j :| 0 <= j < i < |pre| && l == Link(fixed, pre, n, i, j);
      LinkPrefix(fixed, pawns, n, |pawns| - 1, i, j);
      assert Link(fixed, pawns, n, i, j) in PairLines(fixed, pawns, n);
    }
  }

  lemma LineSplits(fixed: bool, pawns: seq<int>, n: int, i: int, j: int)
    requires Shaped(pawns, n) && 0 <= j < i < |pawns|
    ensures Shaped(pawns[..|pawns| - 1], n)
    ensures Link(fixed, pawns, n, i, j) in PairLines(fixed, pawns[..|pawns| - 1], n) + NewLines(fixed, pawns, n)
  {
    if i < |pawns| - 1 {
      LinkPrefix(fixed, pawns, n, |pawns| - 1, i, j);
      assert Link(fixed, pawns[..|pawns| - 1], n, i, j) in PairLines(fixed, pawns[..|pawns| - 1], n);
    } else {
      assert Link(fixed, pawns, n, i, j) in NewLines(fixed, pawns, n);
    }
  }

  /** The lines of a list are distinct exactly when those of all but its
      last pawn are and none of the new lines is a line among the earlier
      pawns. */
  lemma DistinctLast(fixed: bool, pawns: seq<int>, n: int)
    requires Shaped(pawns, n) && pawns != []
    ensures Shaped(pawns[..|pawns| - 1], n)
    ensures DistinctLines(fixed, pawns, n) <==>
      DistinctLines(fixed, pawns[..|pawns| - 1], n) &&
      PairLines(fixed, pawns[..|pawns| - 1], n) * NewLines(fixed, pawns, n) == {}
  {
    if DistinctLines(fixed, pawns, n) {
      DistinctShorter(fixed, pawns, n);
      DistinctDisjoint(fixed, pawns, n);
    }
    if DistinctLines(fixed, pawns[..|pawns| - 1], n) &&
       PairLines(fixed, pawns[..|pawns| - 1], n) * NewLines(fixed, pawns, n) == {} {
      DistinctLonger(fixed, pawns, n);
    }
  }

  lemma DistinctShorter(fixed: bool, pawns: seq<int>, n: int)
    requires Shaped(pawns, n) && pawns != [] && DistinctLines(fixed, pawns, n)
    ensures Shaped(pawns[..|pawns| - 1], n) && DistinctLines(fixed, pawns[..|pawns| - 1], n)
  {
    var last := |pawns| - 1;
    var pre := pawns[..last];
    forall i, j, c, d | 0 <= j < i < |pre| && 0 <= d < c < i
      ensures Link(fixed, pre, n, i, j) != Link(fixed, pre, n, c, d)
    {
      DistinctPair(fixed, pawns, n, i, j, c, d);
      LinkPrefix(fixed, pawns, n, last, i, j);
      LinkPrefix(fixed, pawns, n, last, c, d);
    }
  }

  lemma DistinctDisjoint(fixed: bool, pawns: seq<int>, n: int)
    requires Shaped(pawns, n) && pawns != [] && DistinctLines(fixed, pawns, n)
    ensures Shaped(pawns[..|pawns| - 1], n)
    ensures PairLines(fixed, pawns[..|pawns| - 1], n) * NewLines(fixed, pawns, n) == {}
  {
    var last := |pawns| - 1;
    var pre := pawns[..last];
    if l :| l in PairLines(fixed, pre, n) * NewLines(fixed, pawns, n) {
      var c, d :| 0 <= d < c < |pre| && l == Link(fixed, pre, n, c, d);
      var j :| 0 <= j < last && l == Link(fixed, pawns, n, last, j);
      LinkPrefix(fixed, pawns, n, last, c, d);
      DistinctPair(fixed, pawns, n, last, j, c, d);
      assert false;
    }
  }

  lemma DistinctLonger(fixed: bool, pawns: seq<int>, n: int)
    requires Shaped(pawns, n) && pawns != []
    requires Shaped(pawns[..|pawns| - 1], n) && DistinctLines(fixed, pawns[..|pawns| - 1], n)
    requires PairLines(fixed, pawns[..|pawns| - 1], n) * NewLines(fixed, pawns, n) == {}
    ensures DistinctLines(fixed, pawns, n)
  {
    forall i, j, c, d | 0 <= j < i < |pawns| && 0 <= d < c < i
      ensures Link(fixed, pawns, n, i, j) != Link(fixed, pawns, n, c, d)
    {
      if i < |pawns| - 1 {
        EarlierLinks(fixed, pawns, n, i, j, c, d);
      } else {
        LastLinkFresh(fixed, pawns, n, j, c, d);
      }
    }
  }

  lemma EarlierLinks(fixed: bool, pawns: seq<int>, n: int, i: int, j: int, c: int, d: int)
    requires Shaped(pawns, n) && 0 <= j < i < |pawns| - 1 && 0 <= d < c < i
    requires Shaped(pawns[..|pawns| - 1], n) && DistinctLines(fixed, pawns[..|pawns| - 1], n)
    ensures Link(fixed, pawns, n, i, j) != Link(fixed, pawns, n, c, d)
  {
    LinkPrefix(fixed, pawns, n, |pawns| - 1, i, j);
    LinkPrefix(fixed, pawns, n, |pawns| - 1, c, d);
    DistinctPair(fixed, pawns[..|pawns| - 1], n, i, j, c, d);
  }

  lemma LastLinkFresh(fixed: bool, pawns: seq<int>, n: int, j: int, c: int, d: int)
    requires Shaped(pawns, n) && 0 <= j < |pawns| - 1 && 0 <= d < c < |pawns| - 1
    requires Shaped(pawns[..|pawns| - 1], n)
    requires PairLines(fixed, pawns[..|pawns| - 1], n) * NewLines(fixed, pawns, n) == {}
    ensures Link(fixed, pawns, n, |pawns| - 1, j) != Link(fixed, pawns, n, c, d)
  {
    var pre := pawns[..|pawns| - 1];
    LinkPrefix(fixed, pawns, n, |pawns| - 1, c, d);
    var x, y := Link(fixed, pawns, n, |pawns| - 1, j), Link(fixed, pre, n, c, d);
    assert x in NewLines(fixed, pawns, n);
    assert y in PairLines(fixed, pre, n);
    assert x !in PairLines(fixed, pre, n) * NewLines(fixed, pawns, n);
  }

  /** The lines among the pawns, gathered pawn by pawn as solve does:
      lines[i] | new_lines. */
  function LinesAmong(fixed: bool, pawns: seq<int>, n: int): set<Line>
    requires Shaped(pawns, n)
    decreases |pawns|
  {
    if pawns == [] then {}
    else LinesAmong(fixed, pawns[..|pawns| - 1], n) + NewLines(fixed, pawns, n)
  }

  /** Every pawn was accepted in turn: none of its new lines was among the
      lines of the pawns before it. */
  predicate Accepted(fixed: bool, pawns: seq<int>, n: int)
    requires Shaped(pawns, n)
    decreases |pawns|
  {
    pawns == [] ||
    (Accepted(fixed, pawns[..|pawns| - 1], n) &&
     LinesAmong(fixed, pawns[..|pawns| - 1], n) * NewLines(fixed, pawns, n) == {})
  }

  /** The lines gathered pawn by pawn are the lines through two pawns. */
  lemma {:induction false} LinesAmongPairs(fixed: bool, pawns: seq<int>, n: int)
    requires Shaped(pawns, n)
    ensures LinesAmong(fixed, pawns, n) == PairLines(fixed, pawns, n)
    decreases |pawns|
  {
    if pawns != [] {
      LinesAmongPairs(fixed, pawns[..|pawns| - 1], n);
      LinesGrow(fixed, pawns, n);
    }
  }

  /** The clash inside solve, for n = 7: with the rows
      [1, 0, 4, 6, 0, 1, 3, 2, 2] the test on line 20 accepts each of the
      nine pawns in turn, as written, although pawn 2 at (4, 2), pawn 3 at
      (6, 3) and pawn 8 at (2, 1) are aligned: get_line gives the pair of
      pawns 3 and 2 the triple (-2, -1, 0) and the pairs of pawn 8 with
      pawns 2 and 3 the triple (2, 1, 0). The corrected lines reject
      pawn 8. */
  lemma SignClashInSearch(p: seq<int>)
    requires p == [1, 0, 4, 6, 0, 1, 3, 2, 2]
    ensures Shaped(p, 7) && Accepted(false, p, 7)
    ensures !NoThreeAligned(p, 7) && !Accepted(true, p, 7)
  {
    assert Shaped(p, 7);
    forall i, j, c, d | 0 <= j < i < |p| && 0 <= d < c < i
      ensures Link(false, p, 7, i, j) != Link(false, p, 7, c, d)
    {
      ClashPair(p, i, j, c, d);
    }
    AcceptedDistinct(false, p, 7);
    ClashPoints(p, 2);
    ClashPoints(p, 3);
    ClashPoints(p, 8);
    assert Collinear(At(p, 7, 2), At(p, 7, 3), At(p, 7, 8));
    if Accepted(true, p, 7) {
      AcceptedNoThree(p, 7);
      assert false;
    }
  }

  /** The squares of the pawns of the placement above. */
  lemma ClashPoints(p: seq<int>, a: int)
    requires p == [1, 0, 4, 6, 0, 1, 3, 2, 2] && 0 <= a < 9
    ensures At(p, 7, a) ==
      if a == 0 then (1, 0) else if a == 1 then (0, 1) else if a == 2 then (4, 2)
      else if a == 3 then (6, 3) else if a == 4 then (0, 4) else if a == 5 then (1, 5)
      else if a == 6 then (3, 6) else if a == 7 then (2, 0) else (2, 1)
  {
    Column(a, 7);
  }

  /** Pawns 2, 3 and 8 are the only three aligned pawns of the placement. */
  lemma ClashTriples(p: seq<int>, a: int, b: int, c: int)
    requires p == [1, 0, 4, 6, 0, 1, 3, 2, 2] && 0 <= a < b < c < 9 && (a, b, c) != (2, 3, 8)
    ensures !Collinear(At(p, 7, a), At(p, 7, b), At(p, 7, c))
  {
    ClashPoints(p, a);
    ClashPoints(p, b);
    ClashPoints(p, c);
  }

  /** get_line of two pawns, from its triple (dx, dy, k) and their gcd. */
  lemma LinkValue(pawns: seq<int>, n: int, i: int, j: int, a: int, b: int, c: int, d: int,
                  dx: int, dy: int, k: int, g: int, l: Line)
    requires Shaped(pawns, n) && 0 <= j < i < |pawns|
    requires pawns[i] == a && i % n == b && pawns[j] == c && j % n == d && (a, b) != (c, d)
    requires dx == c - a && dy == d - b && k == dx * b - dy * a
    requires g >= 1 && g == Gcd3(dx, dy, k)
    requires var s := if k < 0 then -g else g; l == Line(dx / s, dy / s, k / s)
    ensures Link(false, pawns, n, i, j) == l
  {
  }

  /** The as-written triples of the aligned pawns 2, 3 and 8. */
  lemma ClashLinks(p: seq<int>)
    requires p == [1, 0, 4, 6, 0, 1, 3, 2, 2] && Shaped(p, 7)
    ensures Link(false, p, 7, 3, 2) == Line(-2, -1, 0)
    ensures Link(false, p, 7, 8, 2) == Line(2, 1, 0) && Link(false, p, 7, 8, 3) == Line(2, 1, 0)
  {
    LinkValue(p, 7, 3, 2, 6, 3, 4, 2, -2, -1, 0, 1, Line(-2, -1, 0));
    LinkValue(p, 7, 8, 2, 2, 1, 4, 2, 2, 1, 0, 1, Line(2, 1, 0));
    LinkValue(p, 7, 8, 3, 2, 1, 6, 3, 4, 2, 0, 2, Line(2, 1, 0));
  }

  lemma CollinearSwap(p: Point, q: Point, r: Point)
    requires Collinear(p, q, r)
    ensures Collinear(p, r, q)
  {
  }

  /** Two pairs of pawns with one line: both pawns of the first pair lie
      on the line through the second. */
  lemma SameLinkCollinear(pawns: seq<int>, n: int, i: int, j: int, c: int, d: int)
    requires Shaped(pawns, n) && 0 <= j < i < |pawns| && 0 <= d < c < |pawns|
    requires Link(false, pawns, n, i, j) == Link(false, pawns, n, c, d)
    ensures Collinear(At(pawns, n, c), At(pawns, n, d), At(pawns, n, i))
    ensures Collinear(At(pawns, n, c), At(pawns, n, d), At(pawns, n, j))
  {
    Apart(pawns, n, c, d);
    CollinearOnLine(At(pawns, n, c), At(pawns, n, d), At(pawns, n, i));
    CollinearOnLine(At(pawns, n, c), At(pawns, n, d), At(pawns, n, j));
  }

  /** As written, no line of the placement is found twice: a repeated
      triple needs three aligned pawns, and the one aligned trio gets two
      triples. */
  lemma ClashPair(p: seq<int>, i: int, j: int, c: int, d: int)
    requires p == [1, 0, 4, 6, 0, 1, 3, 2, 2] && Shaped(p, 7)
    requires 0 <= j < i < 9 && 0 <= d < c < i
    ensures Link(false, p, 7, i, j) != Link(false, p, 7, c, d)
  {
    if Link(false, p, 7, i, j) == Link(false, p, 7, c, d) {
      SameLinkCollinear(p, 7, i, j, c, d);
      var pc, pd := At(p, 7, c), At(p, 7, d);
      CollinearRotate(pc, pd, At(p, 7, i));
      if (d, c, i) != (2, 3, 8) {
        ClashTriples(p, d, c, i);
        assert false;
      }
      ClashLinks(p);
      if j < 2 {
        CollinearRotate(pc, pd, At(p, 7, j));
        CollinearSwap(pd, pc, At(p, 7, j));
        CollinearRotate(pd, At(p, 7, j), pc);
        CollinearSwap(At(p, 7, j), pd, pc);
        ClashTriples(p, j, d, c);
      } else if j > 3 {
        CollinearRotate(pc, pd, At(p, 7, j));
        ClashTriples(p, d, c, j);
      }
      assert false;
    }
  }

  /** Accepting pawn by pawn is the same as all lines from a pawn to the
      earlier ones differing from the lines among those. */
  lemma {:induction false} AcceptedDistinct(fixed: bool, pawns: seq<int>, n: int)
    requires Shaped(pawns, n)
    ensures Accepted(fixed, pawns, n) <==> DistinctLines(fixed, pawns, n)
    decreases |pawns|
  {
    if pawns != [] {
      AcceptedDistinct(fixed, pawns[..|pawns| - 1], n);
      LinesAmongPairs(fixed, pawns[..|pawns| - 1], n);
      DistinctLast(fixed, pawns, n);
    }
  }

  // ---------------------------------------------------------------------
  // solve.

  /** What the search ends with: a placement, the search space used up,
      or the step budget spent. */
  datatype Outcome = Placed(pawns: seq<int>) | Exhausted | Unfinished

  /** The pawns of solve's loop: the first i are on the grid and shaped,
      and pawn i is on a row no higher than its column allows. */
  ghost predicate Placing(pawns: seq<int>, n: int, i: int)
  {
    n >= 1 && |pawns| == 2 * n && 0 <= i <= 2 * n &&
    Shaped(pawns[..i], n) && OnGrid(pawns[..i], n) &&
    (i < 2 * n ==> pawns[i] >= 0 && (i >= n ==> pawns[i] > pawns[i - n]))
  }

  /** lines[j] holds the lines among the first j pawns, up to pawn i. */
  ghost predicate Tracking(fixed: bool, pawns: seq<int>, lines: seq<set<Line>>, n: int, i: int)
  {
    |lines| == |pawns| &&
    forall j :: 0 <= j <= i && j < |lines| ==>
      Shaped(pawns[..j], n) && lines[j] == LinesAmong(fixed, pawns[..j], n)
  }

  /** The state of solve's loop: the first i pawns are placed and
      accepted, and the forbidden lines are up to date. */
  ghost predicate Searching(fixed: bool, pawns: seq<int>, lines: seq<set<Line>>, n: int, i: int)
  {
    Placing(pawns, n, i) && Accepted(fixed, pawns[..i], n) && Tracking(fixed, pawns, lines, n, i)
  }

  /** The state solve starts from. */
  lemma SearchStart(fixed: bool, n: int)
    requires n >= 1
    ensures Searching(fixed, seq(2 * n, _ => 0), seq(2 * n, _ => {}), n, 0)
  {
    var pawns: seq<int> := seq(2 * n, _ => 0);
    assert pawns[..0] == [];
  }

  /** Pawn i with its current row, as a candidate. */
  lemma Candidate(pawns: seq<int>, n: int, i: int)
    requires Placing(pawns, n, i) && i < 2 * n
    ensures Shaped(pawns[..i + 1], n) && pawns[..i + 1][..i] == pawns[..i]
  {
  }

  /** Changing pawns from k on keeps the lines of the first k. */
  lemma TrackingKeep(fixed: bool, pawns: seq<int>, next: seq<int>, lines: seq<set<Line>>, n: int, i: int, k: int)
    requires Tracking(fixed, pawns, lines, n, i) && 0 <= k <= i
    requires |next| == |pawns| && k <= |pawns| && next[..k] == pawns[..k]
    ensures Tracking(fixed, next, lines, n, k)
  {
    forall j | 0 <= j <= k
      ensures next[..j] == pawns[..j]
    {
      assert next[..j] == next[..k][..j];
      assert pawns[..j] == pawns[..k][..j];
    }
  }

  /** Going back to pawn i - 1, one row further down. */
  lemma Backtrack(fixed: bool, pawns: seq<int>, lines: seq<set<Line>>, n: int, i: int)
    requires Searching(fixed, pawns, lines, n, i) && 0 < i < 2 * n
    ensures Searching(fixed, pawns[i - 1 := pawns[i - 1] + 1], lines, n, i - 1)
  {
    var next := pawns[i - 1 := pawns[i - 1] + 1];
    assert next[..i - 1] == pawns[..i][..i - 1];
    assert Placing(next, n, i - 1);
    TrackingKeep(fixed, pawns, next, lines, n, i, i - 1);
  }

  /** Pawn i draws a line already drawn: the placement with it is not
      accepted, and pawn i moves one row down. */
  lemma Reject(fixed: bool, pawns: seq<int>, lines: seq<set<Line>>, n: int, i: int)
    requires Searching(fixed, pawns, lines, n, i) && i < 2 * n
    requires Shaped(pawns[..i + 1], n)
    requires lines[i] * NewLines(fixed, pawns[..i + 1], n) != {}
    ensures !Accepted(fixed, pawns[..i + 1], n)
    ensures Searching(fixed, pawns[i := pawns[i] + 1], lines, n, i)
  {
    var next := pawns[i := pawns[i] + 1];
    assert pawns[..i + 1][..i] == pawns[..i];
    assert next[..i] == pawns[..i];
    assert Placing(next, n, i);
    TrackingKeep(fixed, pawns, next, lines, n, i, i);
  }

  /** Pawn i draws no line already drawn: it is accepted, and the lines
      among the first i + 1 pawns are lines[i] with its new lines. */
  lemma Accept(fixed: bool, pawns: seq<int>, lines: seq<set<Line>>, n: int, i: int)
    requires Searching(fixed, pawns, lines, n, i) && i < 2 * n
    requires Shaped(pawns[..i + 1], n)
    requires lines[i] * NewLines(fixed, pawns[..i + 1], n) == {}
    ensures Accepted(fixed, pawns[..i + 1], n)
    ensures LinesAmong(fixed, pawns[..i + 1], n) == lines[i] + NewLines(fixed, pawns[..i + 1], n)
  {
    assert pawns[..i + 1][..i] == pawns[..i];
  }

  /** The last pawn accepted: the whole placement is. */
  lemma Complete(fixed: bool, pawns: seq<int>, lines: seq<set<Line>>, n: int, i: int)
    requires Searching(fixed, pawns, lines, n, i) && i + 1 == 2 * n && pawns[i] < n
    requires Shaped(pawns[..i + 1], n) && Accepted(fixed, pawns[..i + 1], n)
    ensures Searching(fixed, pawns, lines, n, i + 1)
  {
    assert pawns[..i + 1] == pawns[..2 * n];
    var placed := pawns[..i + 1];
    assert OnGrid(placed, n) by {
      forall k | 0 <= k <= i
        ensures 0 <= placed[k] < n
      {
        if k < i {
          assert placed[k] == pawns[..i][k];
        }
      }
    }
    assert Placing(pawns, n, i + 1);
    TrackingKeep(fixed, pawns, pawns, lines, n, i, i);
  }

  /** Pawn i accepted and more to place: the next pawn starts just below
      its partner in the column, or at the top. */
  lemma Advance(fixed: bool, pawns: seq<int>, lines: seq<set<Line>>, n: int, i: int)
    requires Searching(fixed, pawns, lines, n, i) && i + 1 < 2 * n && pawns[i] < n
    requires Shaped(pawns[..i + 1], n) && Accepted(fixed, pawns[..i + 1], n)
    requires LinesAmong(fixed, pawns[..i + 1], n) == lines[i] + NewLines(fixed, pawns[..i + 1], n)
    ensures Searching(fixed, pawns[i + 1 := if i + 1 < n then 0 else pawns[i + 1 - n] + 1],
                      lines[i + 1 := lines[i] + NewLines(fixed, pawns[..i + 1], n)], n, i + 1)
  {
    var next := pawns[i + 1 := if i + 1 < n then 0 else pawns[i + 1 - n] + 1];
    assert next[..i + 1] == pawns[..i + 1];
    PlacingNext(pawns, n, i);
    TrackingNext(fixed, pawns, next, lines, n, i);
  }

  lemma PlacingNext(pawns: seq<int>, n: int, i: int)
    requires Placing(pawns, n, i) && i + 1 < 2 * n && pawns[i] < n
    ensures Placing(pawns[i + 1 := if i + 1 < n then 0 else pawns[i + 1 - n] + 1], n, i + 1)
  {
    var next := pawns[i + 1 := if i + 1 < n then 0 else pawns[i + 1 - n] + 1];
    assert next[..i + 1] == pawns[..i + 1];
    assert Shaped(next[..i + 1], n);
    assert OnGrid(next[..i + 1], n) by {
      forall k | 0 <= k <= i
        ensures 0 <= next[k] < n
      {
        if k < i {
          assert next[k] == pawns[..i][k];
        }
      }
    }
    if i + 1 >= n {
      assert pawns[i + 1 - n] >= 0 by {
        if i + 1 - n < i {
          assert pawns[i + 1 - n] == pawns[..i][i + 1 - n];
        }
      }
    }
  }

  lemma TrackingNext(fixed: bool, pawns: seq<int>, next: seq<int>, lines: seq<set<Line>>, n: int, i: int)
    requires Tracking(fixed, pawns, lines, n, i) && 0 <= i && i + 1 < |pawns|
    requires |next| == |pawns| && next[..i + 1] == pawns[..i + 1] && Shaped(pawns[..i + 1], n)
    requires LinesAmong(fixed, pawns[..i + 1], n) == lines[i] + NewLines(fixed, pawns[..i + 1], n)
    ensures Tracking(fixed, next, lines[i + 1 := lines[i] + NewLines(fixed, pawns[..i + 1], n)], n, i + 1)
  {
    var after := lines[i + 1 := lines[i] + NewLines(fixed, pawns[..i + 1], n)];
    TrackingKeep(fixed, pawns, next, lines, n, i, i);
    forall j | 0 <= j <= i + 1
      ensures Shaped(next[..j], n) && after[j] == LinesAmong(fixed, next[..j], n)
    {
      if j == i + 1 {
      } else {
        assert next[..j] == next[..i + 1][..j];
        assert pawns[..j] == pawns[..i + 1][..j];
      }
    }
  }

  /** One round of solve's loop once the search goes on: a pawn that ran
      off the grid sends the search back to the previous pawn, moved one
      row down; a pawn that draws a forbidden line moves one row down; an
      accepted pawn adds its lines and the next pawn starts. */
  method Round(fixed: bool, n: int, pawns: seq<int>, lines: seq<set<Line>>, i: int)
    returns (pawns': seq<int>, lines': seq<set<Line>>, i': int)
    requires Searching(fixed, pawns, lines, n, i) && i < 2 * n && (i == 0 ==> pawns[i] < n)
    ensures Searching(fixed, pawns', lines', n, i')
  {
    pawns', lines', i' := pawns, lines, i;
    if pawns[i] >= n {
      Backtrack(fixed, pawns, lines, n, i);
      i' := i - 1;
      pawns' := pawns[i' := pawns[i'] + 1];
    } else {
      Candidate(pawns, n, i);
      var drawn := NewLines(fixed, pawns[..i + 1], n);
      if lines[i] * drawn != {} {
        Reject(fixed, pawns, lines, n, i);
        pawns' := pawns[i := pawns[i] + 1];
      } else {
        Accept(fixed, pawns, lines, n, i);
        if i + 1 < 2 * n {
          Advance(fixed, pawns, lines, n, i);
          pawns' := pawns[i + 1 := if i + 1 < n then 0 else pawns[i + 1 - n] + 1];
          lines' := lines[i + 1 := lines[i] + drawn];
        } else {
          Complete(fixed, pawns, lines, n, i);
        }
        i' := i + 1;
      }
    }
  }

  /** solve(n): place the pawns column by column, two per column, moving
      each pawn down until its lines to the earlier pawns are all new and
      backtracking when a pawn runs off the grid. fixed selects the
      corrected lines; fuel bounds the number of loop rounds. */
  method Solve(n: int, fixed: bool, fuel: nat) returns (r: Outcome)
    ensures n <= 0 ==> r == Placed([])
    ensures r.Placed? && n >= 1 ==>
      |r.pawns| == 2 * n && Shaped(r.pawns, n) && OnGrid(r.pawns, n) && Accepted(fixed, r.pawns, n)
    ensures r.Placed? && n >= 1 ==> DistinctLines(fixed, r.pawns, n)
    ensures r.Placed? && n >= 1 && fixed ==> NoThreeAligned(r.pawns, n)
  {
    if n <= 0 {
      return Placed([]);
    }
    var pawns: seq<int> := seq(2 * n, _ => 0);
    var lines: seq<set<Line>> := seq(2 * n, _ => {});
    var i := 0;
    var steps := 0;
    SearchStart(fixed, n);
    while i < 2 * n
      invariant steps <= fuel
      invariant Searching(fixed, pawns, lines, n, i)
      decreases fuel - steps
    {
      if steps == fuel {
        return Unfinished;
      }
      steps := steps + 1;
      if i == 0 && pawns[i] >= n {
        return Exhausted;
      }
      pawns, lines, i := Round(fixed, n, pawns, lines, i);
    }
    assert pawns[..i] == pawns;
    AcceptedDistinct(fixed, pawns, n);
    if fixed {
      AcceptedNoThree(pawns, n);
    }
    return Placed(pawns);
  }
}
