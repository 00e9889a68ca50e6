/** The point-in-polygon test of imagemap.c, over exact reals, and the geometry it gives.

    A point is inside when an odd number of edges of the closed vertex list cross its
    horizontal line at or to the right of it.  "On or above" counts as one side of that line,
    which makes every edge and every area half-open. */
module Polygon {

  const MAXVERTS := 100

  datatype Point = Point(x: real, y: real)

  /** The edge has its ends on different sides of the height `ty`. */
  predicate Straddles(a: Point, b: Point, ty: real) {
    (a.y >= ty) != (b.y >= ty)
  }

  /** Where the line through two points of different heights meets the height `ty`. */
  function CrossX(a: Point, b: Point, ty: real): real
    requires a.y != b.y
  {
    a.x - (a.y - ty) * (b.x - a.x) / (b.y - a.y)
  }

  predicate Crosses(a: Point, b: Point, t: Point) {
    Straddles(a, b, t.y) && CrossX(a, b, t.y) >= t.x
  }

  function Bit(b: bool): nat { if b then 1 else 0 }

  /** Crossings along an open path. */
  function PathCrossings(v: seq<Point>, t: Point): nat {
    if |v| < 2 then 0
    else PathCrossings(v[..|v| - 1], t) + Bit(Crosses(v[|v| - 2], v[|v| - 1], t))
  }

  /** Crossings along the closed vertex list. */
  function Crossings(v: seq<Point>, t: Point): nat
    requires v != []
  {
    PathCrossings(v, t) + Bit(Crosses(v[|v| - 1], v[0], t))
  }

  predicate Inside(v: seq<Point>, t: Point)
    requires v != []
  {
    Crossings(v, t) % 2 == 1
  }

  // ----- a single edge -----

  /** Twice the signed area of the triangle from the point to the edge. */
  function Det(a: Point, b: Point, t: Point): real {
    (a.x - t.x) * (b.y - t.y) - (b.x - t.x) * (a.y - t.y)
  }

  lemma MulCancel(p: real, q: real)
    requires q != 0.0
    ensures p / q * q == p
  {
  }

  /** The crossing, without a division. */
  lemma CrossXDet(a: Point, b: Point, t: Point)
    requires a.y != b.y
    ensures (CrossX(a, b, t.y) - t.x) * (b.y - a.y) == Det(a, b, t)
  {
    var d := b.y - a.y;
    var n := (a.y - t.y) * (b.x - a.x);
    MulCancel(n, d);
    var p, q := a.x - t.x, n / d;
    assert CrossX(a, b, t.y) - t.x == p - q;
    MulMinus(p, q, d);
    DetByRise(a.x - t.x, a.y - t.y, b.x - a.x, d);
    assert b.x - t.x == (a.x - t.x) + (b.x - a.x) && b.y - t.y == (a.y - t.y) + d;
  }

  lemma MulMinus(p: real, q: real, d: real)
    ensures (p - q) * d == p * d - q * d
  {
  }

  lemma DetByRise(p: real, u: real, e: real, d: real)
    ensures p * (u + d) - (p + e) * u == p * d - u * e
  {
    MulMinus(p, 0.0 - e, u);
    MulPlus(u, d, p);
  }

  lemma MulPlus(u: real, d: real, p: real)
    ensures p * (u + d) == p * u + p * d
  {
  }

  lemma SignOfProduct(p: real, q: real)
    ensures q > 0.0 ==> (p >= 0.0 <==> p * q >= 0.0) && (p > 0.0 <==> p * q > 0.0)
    ensures q < 0.0 ==> (p >= 0.0 <==> p * q <= 0.0) && (p > 0.0 <==> p * q < 0.0)
  {
  }

  /** A rising edge is crossed by points on or left of it, a falling one by points on or right of it. */
  lemma CrossesIffDet(a: Point, b: Point, t: Point)
    ensures Crosses(a, b, t) <==>
      if a.y < t.y <= b.y then Det(a, b, t) >= 0.0
      else if b.y < t.y <= a.y then Det(a, b, t) <= 0.0
      else false
  {
    if Straddles(a, b, t.y) {
      CrossXDet(a, b, t);
      SignOfProduct(CrossX(a, b, t.y) - t.x, b.y - a.y);
    }
  }

  lemma DetFlips(a: Point, b: Point, t: Point)
    ensures Det(b, a, t) == -Det(a, b, t)
  {
  }

  /** An edge may be walked either way. */
  lemma CrossesSymmetric(a: Point, b: Point, t: Point)
    ensures Crosses(a, b, t) == Crosses(b, a, t)
  {
    CrossesIffDet(a, b, t);
    CrossesIffDet(b, a, t);
    DetFlips(a, b, t);
  }

  /** The crossing lies between the ends of the edge, so when both ends are on one side of the
      point no division is needed. */
  lemma CrossesShortcut(a: Point, b: Point, t: Point)
    requires Straddles(a, b, t.y)
    ensures (a.x >= t.x) == (b.x >= t.x) ==> Crosses(a, b, t) == (a.x >= t.x)
  {
    CrossesIffDet(a, b, t);
    var p, q, r, s := a.x - t.x, b.x - t.x, a.y - t.y, b.y - t.y;
    SignOfProduct(p, s);
    SignOfProduct(q, r);
    assert Det(a, b, t) == p * s - q * r;
  }

  // ----- the method -----

  /** The vertices before the sentinel in a flat array of coordinates. */
  function Vertices(flat: seq<real>): seq<Point> {
    if |flat| < 2 || flat[0] == -1.0 then []
    else [Point(flat[0], flat[1])] + Vertices(flat[2..])
  }

  function VertexAt(flat: seq<real>, k: nat): Point
    requires 2 * k + 1 < |flat|
  {
    Point(flat[2 * k], flat[2 * k + 1])
  }

  /** The first `n` vertices, when the sentinel comes after them. */
  lemma {:induction false} VerticesAt(flat: seq<real>, n: nat)
    requires 2 * n + 1 < |flat| && VertexAt(flat, n).x == -1.0
    requires forall k | 0 <= k < n :: VertexAt(flat, k).x != -1.0
    ensures |Vertices(flat)| == n
    ensures forall k | 0 <= k < n :: Vertices(flat)[k] == VertexAt(flat, k)
    decreases n
  {
    if n == 0 {
    } else {
      assert VertexAt(flat, 0).x != -1.0;
      var rest := flat[2..];
      forall k: nat | k < n
        ensures VertexAt(rest, k) == VertexAt(flat, k + 1)
      {
      }
      VerticesAt(rest, n - 1);
      assert Vertices(flat) == [VertexAt(flat, 0)] + Vertices(rest);
    }
  }

  lemma PathStep(v: seq<Point>, k: nat, t: Point)
    requires 1 <= k < |v|
    ensures PathCrossings(v[..k + 1], t) == PathCrossings(v[..k], t) + Bit(Crosses(v[k - 1], v[k], t))
  {
    assert v[..k + 1][..k] == v[..k];
  }

  /** Is the point inside the polygon whose vertices stand before the sentinel? */
  method PointInPoly(point: Point, pgon: array<real>) returns (insideFlag: nat)
    requires pgon.Length == 2 * MAXVERTS
    requires pgon[0] != -1.0 && exists k: nat :: k < MAXVERTS && VertexAt(pgon[..], k).x == -1.0
    ensures Vertices(pgon[..]) != []
    ensures insideFlag == Bit(Inside(Vertices(pgon[..]), point))
  {
    var i: nat := 0;
    ghost var sentinel: nat :| sentinel < MAXVERTS && VertexAt(pgon[..], sentinel).x == -1.0;
    while pgon[2 * i] != -1.0 && i < MAXVERTS
      invariant i <= sentinel
      invariant forall k: nat | k < i :: VertexAt(pgon[..], k).x != -1.0
      decreases MAXVERTS - i
    {
      assert VertexAt(pgon[..], i).x != -1.0;
      i := i + 1;
    }
    var numverts := i;
    assert VertexAt(pgon[..], i).x == -1.0;
    VerticesAt(pgon[..], numverts);
    ghost var v := Vertices(pgon[..]);
    assert forall k | 0 <= k < numverts :: v[k] == VertexAt(pgon[..], k);
    var crossings := CountCrossings(point, pgon, numverts, v);
    insideFlag := crossings % 2;
  }

  /** The array holds the vertices, x before y. */
  ghost predicate Lays(pgon: array<real>, v: seq<Point>)
    reads pgon
  {
    2 * |v| <= pgon.Length && forall k | 0 <= k < |v| :: v[k].x == pgon[2 * k] && v[k].y == pgon[2 * k + 1]
  }

  /** The crossings of the first `numverts` vertices, the closing edge first. */
  method CountCrossings(point: Point, pgon: array<real>, numverts: nat, ghost v: seq<Point>) returns (crossings: nat)
    requires 0 < numverts == |v| && Lays(pgon, v)
    ensures crossings == Crossings(v, point)
  {
    crossings := 0;
    var y := pgon[2 * (numverts - 1) + 1];
    assert v[0] == Point(pgon[0], pgon[1]) && v[numverts - 1] == Point(pgon[2 * (numverts - 1)], y);
    if (y >= point.y) != (pgon[1] >= point.y) {
      crossings := CountEdge(pgon[2 * (numverts - 1)], y, pgon[0], pgon[1], point);
    }
    var walked := WalkPath(point, pgon, numverts, v);
    assert v[..numverts] == v;
    crossings := crossings + walked;
  }

  /** Skips the run of vertices on the side of the vertex before `p0`.  The index is that of a y
      coordinate, of vertex `p / 2`. */
  method SkipSide(point: Point, pgon: array<real>, p0: nat, stop: nat, above: bool, ghost v: seq<Point>)
    returns (p: nat)
    requires Lays(pgon, v) && stop == 2 * |v| && p0 % 2 == 1 && 3 <= p0 < stop
    requires above == (v[p0 / 2 - 1].y >= point.y)
    ensures p0 <= p <= stop + 1 && p % 2 == 1 && above == (v[p / 2 - 1].y >= point.y)
    ensures p < stop ==> Straddles(v[p / 2 - 1], v[p / 2], point.y)
    ensures PathCrossings(v[..p / 2], point) == PathCrossings(v[..p0 / 2], point)
  {
    p := p0;
    while p < stop && above == (pgon[p] >= point.y)
      invariant p0 <= p <= stop + 1 && p % 2 == 1 && above == (v[p / 2 - 1].y >= point.y)
      invariant PathCrossings(v[..p / 2], point) == PathCrossings(v[..p0 / 2], point)
      decreases stop - p
    {
      ghost var k := p / 2;
      assert p == 2 * k + 1 && v[k].y == pgon[p];
      PathStep(v, k, point);
      p := p + 2;
      assert p / 2 == k + 1;
    }
    assert p < stop ==> p == 2 * (p / 2) + 1 && v[p / 2].y == pgon[p];
  }

  /** The crossings along the open path.  Index `p` walks over the y coordinates. */
  method WalkPath(point: Point, pgon: array<real>, numverts: nat, ghost v: seq<Point>) returns (crossings: nat)
    requires 0 < numverts == |v| && Lays(pgon, v)
    ensures crossings == PathCrossings(v, point)
  {
    crossings := 0;
    var stop := 2 * numverts;
    var y, p := pgon[1], 3;
    assert v[0].y == pgon[1];
    while p < stop
      invariant 3 <= p <= stop + 1 && p % 2 == 1 && y == v[p / 2 - 1].y
      invariant crossings == PathCrossings(v[..p / 2], point)
      decreases stop - p
    {
      p := SkipSide(point, pgon, p, stop, y >= point.y, v);
      if p >= stop {
        break;
      }
      ghost var k := p / 2;
      assert p == 2 * k + 1;
      assert v[k - 1] == Point(pgon[p - 3], pgon[p - 2]) && v[k] == Point(pgon[p - 1], pgon[p]);
      var c := CountEdge(pgon[p - 3], pgon[p - 2], pgon[p - 1], pgon[p], point);
      PathStep(v, k, point);
      crossings := crossings + c;
      y := pgon[p];
      p := p + 2;
      assert p / 2 == k + 1;
    }
    assert p / 2 == numverts && v[..numverts] == v;
  }

  /** The count of one straddling edge: by its ends alone if they are on one side. */
  method CountEdge(x0: real, y0: real, x1: real, y1: real, t: Point) returns (c: nat)
    requires Straddles(Point(x0, y0), Point(x1, y1), t.y)
    ensures c == Bit(Crosses(Point(x0, y0), Point(x1, y1), t))
  {
    CrossesShortcut(Point(x0, y0), Point(x1, y1), t);
    var xflag0 := x0 >= t.x;
    if xflag0 == (x1 >= t.x) {
      if xflag0 {
        c := 1;
      } else {
        c := 0;
      }
    } else {
      c := if x0 - (y0 - t.y) * (x1 - x0) / (y1 - y0) >= t.x then 1 else 0;
    }
  }

  // ----- laws of the vertex list -----

  lemma {:induction false} PathConcat(a: seq<Point>, b: seq<Point>, t: Point)
    requires a != [] && b != []
    ensures PathCrossings(a + b, t)
         == PathCrossings(a, t) + Bit(Crosses(a[|a| - 1], b[0], t)) + PathCrossings(b, t)
    decreases |b|
  {
    var c := a + b;
    if |b| == 1 {
      assert c[..|c| - 1] == a;
    } else {
      assert c[..|c| - 1] == a + b[..|b| - 1];
      PathConcat(a, b[..|b| - 1], t);
    }
  }

  /** It does not matter which vertex is listed first. */
  lemma RotationLaw(v: seq<Point>, k: nat, t: Point)
    requires k < |v|
    ensures Crossings(v[k..] + v[..k], t) == Crossings(v, t)
  {
    hide Crosses, PathCrossings;
    if k > 0 {
      PathConcat(v[k..], v[..k], t);
      PathConcat(v[..k], v[k..], t);
      assert v[..k] + v[k..] == v;
    } else {
      assert v[k..] + v[..k] == v;
    }
  }

  function Reversed(v: seq<Point>): seq<Point> {
    if v == [] then [] else Reversed(v[1..]) + [v[0]]
  }

  lemma {:induction false} ReversedEnds(v: seq<Point>)
    requires v != []
    ensures Reversed(v) != [] && Reversed(v)[0] == v[|v| - 1] && Reversed(v)[|Reversed(v)| - 1] == v[0]
    decreases |v|
  {
    if |v| == 1 {
    } else {
      ReversedEnds(v[1..]);
    }
  }

  lemma {:induction false} PathReversed(v: seq<Point>, t: Point)
    ensures PathCrossings(Reversed(v), t) == PathCrossings(v, t)
    decreases |v|
  {
    if |v| >= 2 {
      var rest := v[1..];
      ReversedEnds(rest);
      PathReversed(rest, t);
      PathConcat(Reversed(rest), [v[0]], t);
      PathConcat([v[0]], rest, t);
      assert [v[0]] + rest == v;
      CrossesSymmetric(v[0], rest[0], t);
    } else if |v| == 1 {
      assert Reversed(v) == v;
    }
  }

  /** Nor which way round the vertices are listed. */
  lemma ReversalLaw(v: seq<Point>, t: Point)
    requires v != []
    ensures Reversed(v) != [] && Crossings(Reversed(v), t) == Crossings(v, t)
  {
    ReversedEnds(v);
    PathReversed(v, t);
    CrossesSymmetric(v[|v| - 1], v[0], t);
  }

  /** A ring cut in two: the chord is an edge of both parts. */
  lemma RingSplit(first: seq<Point>, back: seq<Point>, t: Point)
    requires |first| >= 2
    ensures var n := |first| - 1;
      Crossings(first, t) + Crossings([first[n]] + back + [first[0]], t)
        == Crossings(first + back, t) + 2 * Bit(Crosses(first[n], first[0], t))
  {
    var p, q := first[0], first[|first| - 1];
    CrossesSymmetric(p, q, t);
    PathConcat([q] + back, [p], t);
    if back == [] {
      assert first + back == first && [q] + back == [q];
    } else {
      PathConcat([q], back, t);
      PathConcat(first, back, t);
    }
  }

  /** Cutting a polygon along the chord between any two of its vertices: the whole is the
      exclusive or of the parts, for every point, points on the chord included. */
  lemma SplittingLaw(v: seq<Point>, i: nat, j: nat, t: Point)
    requires i < j < |v|
    ensures var one, other := v[i..j + 1], v[j..] + v[..i + 1];
      Inside(v, t) == (Inside(one, t) != Inside(other, t))
  {
    var one, other, chord := v[i..j + 1], v[j..] + v[..i + 1], Bit(Crosses(v[j], v[i], t));
    assert Crossings(one, t) + Crossings(other, t) == Crossings(v, t) + 2 * chord by {
      RotationLaw(v, i, t);
      CutRing(v, i, j);
      RingSplit(one, v[j + 1..] + v[..i], t);
    }
  }

  lemma CutRing(v: seq<Point>, i: nat, j: nat)
    requires i < j < |v|
    ensures v[i..] + v[..i] == v[i..j + 1] + (v[j + 1..] + v[..i])
    ensures v[j..] + v[..i + 1] == [v[i..j + 1][j - i]] + (v[j + 1..] + v[..i]) + [v[i..j + 1][0]]
  {
    assert v[j..] == [v[j]] + v[j + 1..];
    assert v[..i + 1] == v[..i] + [v[i]];
  }

  // ----- parity and bounds -----

  function PathStraddles(v: seq<Point>, ty: real): nat {
    if |v| < 2 then 0
    else PathStraddles(v[..|v| - 1], ty) + Bit(Straddles(v[|v| - 2], v[|v| - 1], ty))
  }

  lemma {:induction false} PathStraddlesParity(v: seq<Point>, ty: real)
    requires v != []
    ensures PathStraddles(v, ty) % 2 == Bit(Straddles(v[0], v[|v| - 1], ty))
    decreases |v|
  {
    if |v| < 2 {
    } else {
      PathStraddlesParity(v[..|v| - 1], ty);
    }
  }

  /** A closed list of vertices changes sides an even number of times. */
  lemma StraddlesEven(v: seq<Point>, ty: real)
    requires v != []
    ensures (PathStraddles(v, ty) + Bit(Straddles(v[|v| - 1], v[0], ty))) % 2 == 0
  {
    PathStraddlesParity(v, ty);
  }

  /** With every vertex at or right of the point, every change of sides is a crossing; with
      every vertex left of it, none is. */
  lemma {:induction false} PathOneSided(v: seq<Point>, t: Point)
    requires (forall p <- v :: p.x >= t.x) || (forall p <- v :: p.x < t.x)
    ensures PathCrossings(v, t) == if v != [] && v[0].x >= t.x then PathStraddles(v, t.y) else 0
    decreases |v|
  {
    if |v| < 2 {
    } else {
      var a, b := v[|v| - 2], v[|v| - 1];
      PathOneSided(v[..|v| - 1], t);
      assert a in v && b in v && v[0] in v;
      if Straddles(a, b, t.y) { CrossesShortcut(a, b, t); }
    }
  }

  lemma {:induction false} PathLevel(v: seq<Point>, t: Point)
    requires (forall p <- v :: p.y >= t.y) || (forall p <- v :: p.y < t.y)
    ensures PathCrossings(v, t) == 0
    decreases |v|
  {
    if |v| < 2 {
    } else {
      PathLevel(v[..|v| - 1], t);
      assert v[|v| - 2] in v && v[|v| - 1] in v;
    }
  }

  /** A point inside has vertices strictly left of it and vertices at or right of it, vertices
      strictly below and vertices at or above: outside the half-open bounding box, nothing is
      inside, whatever the shape. */
  lemma BoundingBox(v: seq<Point>, t: Point)
    requires v != [] && Inside(v, t)
    ensures (exists p <- v :: p.x < t.x) && (exists p <- v :: p.x >= t.x)
    ensures (exists p <- v :: p.y < t.y) && (exists p <- v :: p.y >= t.y)
  {
    var a, b := v[|v| - 1], v[0];
    assert a in v && b in v;
    if (forall p <- v :: p.x >= t.x) || (forall p <- v :: p.x < t.x) {
      PathOneSided(v, t);
      StraddlesEven(v, t.y);
      if Straddles(a, b, t.y) { CrossesShortcut(a, b, t); }
      assert false;
    }
    if (forall p <- v :: p.y >= t.y) || (forall p <- v :: p.y < t.y) {
      PathLevel(v, t);
      assert false;
    }
  }

  // ----- shapes -----

  /** A rectangle holds exactly the points right of its left side up to and including its
      right side, and above its lower side up to and including its upper side, so that
      rectangles that tile an area hold each of its points once. */
  lemma RectangleExact(x0: real, x1: real, y0: real, y1: real, t: Point)
    requires x0 < x1 && y0 < y1
    ensures Inside([Point(x0, y0), Point(x1, y0), Point(x1, y1), Point(x0, y1)], t)
       <==> x0 < t.x <= x1 && y0 < t.y <= y1
  {
    var a, b, c, d := Point(x0, y0), Point(x1, y0), Point(x1, y1), Point(x0, y1);
    FourCrossings(a, b, c, d, t);
    if Straddles(b, c, t.y) { CrossesShortcut(b, c, t); }
    if Straddles(d, a, t.y) { CrossesShortcut(d, a, t); }
  }

  lemma FourCrossings(a: Point, b: Point, c: Point, d: Point, t: Point)
    ensures Crossings([a, b, c, d], t)
         == Bit(Crosses(a, b, t)) + Bit(Crosses(b, c, t)) + Bit(Crosses(c, d, t)) + Bit(Crosses(d, a, t))
  {
    assert [a, b, c, d] == [a] + ([b] + ([c] + [d]));
    PathConcat([a], [b] + ([c] + [d]), t);
    PathConcat([b], [c] + [d], t);
    PathConcat([c], [d], t);
  }

  lemma ThreeCrossings(a: Point, b: Point, c: Point, t: Point)
    ensures Crossings([a, b, c], t)
         == Bit(Crosses(a, b, t)) + Bit(Crosses(b, c, t)) + Bit(Crosses(c, a, t))
  {
    assert [a, b, c] == [a] + ([b] + [c]);
    PathConcat([a], [b] + [c], t);
    PathConcat([b], [c], t);
  }

  /** The heights of the corners, weighted by the opposite areas, balance at the point. */
  lemma DetsBalance(a: Point, b: Point, c: Point, t: Point)
    ensures Det(a, b, t) * (c.y - t.y) + Det(b, c, t) * (a.y - t.y) + Det(c, a, t) * (b.y - t.y) == 0.0
  {
    var p, q, r := a.x - t.x, b.x - t.x, c.x - t.x;
    var u, v, w := a.y - t.y, b.y - t.y, c.y - t.y;
    assert Det(a, b, t) * w == p * v * w - q * u * w;
    assert Det(b, c, t) * u == q * w * u - r * v * u;
    assert Det(c, a, t) * v == r * u * v - p * w * v;
  }

  /** Off the lines through its sides, a triangle holds exactly the points that lie on the
      same side of all three: the geometric interior, for either orientation. */
  lemma TriangleExact(a: Point, b: Point, c: Point, t: Point)
    requires Det(a, b, t) != 0.0 && Det(b, c, t) != 0.0 && Det(c, a, t) != 0.0
    ensures var p, q, r := Det(a, b, t), Det(b, c, t), Det(c, a, t);
      Inside([a, b, c], t) <==> (p > 0.0 && q > 0.0 && r > 0.0) || (p < 0.0 && q < 0.0 && r < 0.0)
  {
    ThreeCrossings(a, b, c, t);
    EdgeSigns(a, b, c, t);
    EdgeSigns(b, c, a, t);
    EdgeSigns(c, a, b, t);
    DetsBalance(a, b, c, t);
    var p, q, r := Det(a, b, t), Det(b, c, t), Det(c, a, t);
    var u, v, w := a.y - t.y, b.y - t.y, c.y - t.y;
    TriangleParity(p, q, r, u, v, w, p * w, q * u, r * v);
  }

  /** What an edge and the height of the opposite corner say about signs. */
  lemma EdgeSigns(a: Point, b: Point, c: Point, t: Point)
    requires Det(a, b, t) != 0.0
    ensures Crosses(a, b, t) <==> CrossedBySign(a.y - t.y, b.y - t.y, Det(a, b, t))
    ensures SignsAgree(c.y - t.y, Det(a, b, t), Det(a, b, t) * (c.y - t.y))
    ensures a.y != t.y || b.y != t.y
  {
    CrossesIffDet(a, b, t);
    SignOfProduct(c.y - t.y, Det(a, b, t));
  }

  /** Is an edge from height `u` to height `v`, whose area is `d`, crossed? */
  predicate CrossedBySign(u: real, v: real, d: real) {
    if u < 0.0 <= v then d >= 0.0 else if v < 0.0 <= u then d <= 0.0 else false
  }

  predicate SignsAgree(w: real, d: real, product: real) {
    if d > 0.0 then (w >= 0.0 <==> product >= 0.0) && (w > 0.0 <==> product > 0.0)
    else (w >= 0.0 <==> product <= 0.0) && (w > 0.0 <==> product < 0.0)
  }

  /** The case analysis behind `TriangleExact`, on signs alone. */
  lemma TriangleParity(p: real, q: real, r: real, u: real, v: real, w: real, x: real, y: real, z: real)
    requires p != 0.0 && q != 0.0 && r != 0.0 && x + y + z == 0.0 && (u != 0.0 || v != 0.0)
    requires SignsAgree(w, p, x) && SignsAgree(u, q, y) && SignsAgree(v, r, z)
    ensures (Bit(CrossedBySign(u, v, p)) + Bit(CrossedBySign(v, w, q)) + Bit(CrossedBySign(w, u, r))) % 2 == 1
       <==> (p > 0.0 && q > 0.0 && r > 0.0) || (p < 0.0 && q < 0.0 && r < 0.0)
  {
  }

  // ----- any polygon, triangle by triangle -----

  /** How many triangles of the fan from the first vertex hold the point. */
  function FanCount(v: seq<Point>, t: Point): nat {
    if |v| < 3 then 0
    else FanCount(v[..|v| - 1], t) + Bit(Inside([v[0], v[|v| - 2], v[|v| - 1]], t))
  }

  /** What is inside, for every vertex list, convex or not and even if it crosses itself: the
      points that an odd number of its fan triangles hold. */
  lemma {:induction false} FanLaw(v: seq<Point>, t: Point)
    requires |v| >= 2
    ensures Inside(v, t) <==> FanCount(v, t) % 2 == 1
    decreases |v|
  {
    hide Crosses;
    var n := |v|;
    if n == 2 {
      TwoPoints(v[0], v[1], t);
      assert v == [v[0], v[1]];
    } else {
      var last := [v[n - 2], v[n - 1], v[0]];
      SplittingLaw(v, 0, n - 2, t);
      assert v[0..n - 1] == v[..n - 1] && v[n - 2..] + v[..1] == last;
      RotationLaw(last, 2, t);
      assert last[2..] + last[..2] == [v[0], v[n - 2], v[n - 1]];
      FanLaw(v[..n - 1], t);
    }
  }

  /** Strictly on one side of all three sides. */
  predicate InTriangle(a: Point, b: Point, c: Point, t: Point) {
    var p, q, r := Det(a, b, t), Det(b, c, t), Det(c, a, t);
    (p > 0.0 && q > 0.0 && r > 0.0) || (p < 0.0 && q < 0.0 && r < 0.0)
  }

  /** On none of the lines through its sides. */
  predicate OffSides(a: Point, b: Point, c: Point, t: Point) {
    Det(a, b, t) != 0.0 && Det(b, c, t) != 0.0 && Det(c, a, t) != 0.0
  }

  /** The point is on no line through a side of a fan triangle. */
  predicate OffFan(v: seq<Point>, t: Point) {
    |v| < 3 || (OffFan(v[..|v| - 1], t) && OffSides(v[0], v[|v| - 2], v[|v| - 1], t))
  }

  function TriangleCount(v: seq<Point>, t: Point): nat {
    if |v| < 3 then 0
    else TriangleCount(v[..|v| - 1], t) + Bit(InTriangle(v[0], v[|v| - 2], v[|v| - 1], t))
  }

  lemma {:induction false} CountsAgree(v: seq<Point>, t: Point)
    requires OffFan(v, t)
    ensures TriangleCount(v, t) == FanCount(v, t)
    decreases |v|
  {
    hide Det, Inside;
    if |v| < 3 {
    } else {
      TriangleExact(v[0], v[|v| - 2], v[|v| - 1], t);
      CountsAgree(v[..|v| - 1], t);
    }
  }

  /** The geometric meaning, off those lines: an odd number of the fan's triangles, of either
      orientation, surround the point. */
  lemma FanGeometry(v: seq<Point>, t: Point)
    requires |v| >= 2 && OffFan(v, t)
    ensures Inside(v, t) <==> TriangleCount(v, t) % 2 == 1
  {
    FanLaw(v, t);
    CountsAgree(v, t);
  }

  lemma TwoPoints(a: Point, b: Point, t: Point)
    ensures !Inside([a, b], t)
  {
    CrossesSymmetric(a, b, t);
    assert [a, b] == [a] + [b];
    PathConcat([a], [b], t);
  }
}
