/** The polygon helpers of `PolygonUtils`: the approximate shared-edge test,
    the even-odd point-in-polygon test, the inset toward the vertex average,
    the longest-edge padding and the index layout of the extruded mesh. */
module PolygonUtils {
  import opened Geometry
  import opened Sequences
  import opened UnityRandom

  // ---------------------------------------------------------------------------
  // ShareEdge
  // ---------------------------------------------------------------------------

  /** How many vertices of `b` lie closer than `eps` to `va`. */
  function CloseTo(va: Point, b: seq<Point>, eps: real): nat
  {
    if b == [] then 0
    else CloseTo(va, b[..|b| - 1], eps) + (if SqDist(va, b[|b| - 1]) < eps * eps then 1 else 0)
  }

  /** How many pairs `(va, vb)`, `va` from `a` and `vb` from `b`, lie closer than `eps`. */
  function ClosePairs(a: seq<Point>, b: seq<Point>, eps: real): nat
  {
    if a == [] then 0
    else ClosePairs(a[..|a| - 1], b, eps) + CloseTo(a[|a| - 1], b, eps)
  }

  /** Two cell polygons count as neighbours when at least two vertex pairs nearly coincide. */
  predicate SharesEdge(a: seq<Point>, b: seq<Point>, eps: real)
  {
    ClosePairs(a, b, eps) >= 2
  }

  method ShareEdge(a: seq<Point>, b: seq<Point>, eps: real) returns (shared: bool)
    ensures shared == SharesEdge(a, b, eps)
  {
    var hits := 0;
    for i := 0 to |a|
      invariant hits == ClosePairs(a[..i], b, eps)
    {
      for j := 0 to |b|
        invariant hits == ClosePairs(a[..i], b, eps) + CloseTo(a[i], b[..j], eps)
      {
        if SqDist(a[i], b[j]) < eps * eps {
          hits := hits + 1;
        }
        assert b[..j + 1][..j] == b[..j];
      }
      assert b[..|b|] == b;
      assert a[..i + 1][..i] == a[..i];
    }
    assert a[..|a|] == a;
    shared := hits >= 2;
  }

  lemma SqDistSymmetric(p: Point, q: Point)
    ensures SqDist(p, q) == SqDist(q, p)
  {
    assert (p.x - q.x) * (p.x - q.x) == (q.x - p.x) * (q.x - p.x);
    assert (p.y - q.y) * (p.y - q.y) == (q.y - p.y) * (q.y - p.y);
  }

  lemma {:induction false} CloseToEmpty(a: seq<Point>, eps: real)
    ensures ClosePairs(a, [], eps) == 0
  {
    if a != [] {
      CloseToEmpty(a[..|a| - 1], eps);
    }
  }

  /** Adding a vertex `y` to `b` adds the vertices of `a` close to `y`. */
  lemma {:induction false} ClosePairsAppendRight(a: seq<Point>, b: seq<Point>, y: Point, eps: real)
    ensures ClosePairs(a, b + [y], eps) == ClosePairs(a, b, eps) + CloseTo(y, a, eps)
  {
    if a != [] {
      var a' := a[..|a| - 1];
      var x := a[|a| - 1];
      ClosePairsAppendRight(a', b, y, eps);
      assert (b + [y])[..|b + [y]| - 1] == b;
      SqDistSymmetric(x, y);
    }
  }

  lemma {:induction false} ClosePairsSymmetric(a: seq<Point>, b: seq<Point>, eps: real)
    ensures ClosePairs(a, b, eps) == ClosePairs(b, a, eps)
  {
    if b == [] {
      CloseToEmpty(a, eps);
    } else {
      var b' := b[..|b| - 1];
      ClosePairsSymmetric(a, b', eps);
      ClosePairsAppendRight(a, b', b[|b| - 1], eps);
      assert b' + [b[|b| - 1]] == b;
    }
  }

  /** The edge-sharing test does not depend on the order of its two polygons. */
  lemma SharesEdgeSymmetric(a: seq<Point>, b: seq<Point>, eps: real)
    ensures SharesEdge(a, b, eps) == SharesEdge(b, a, eps)
  {
    ClosePairsSymmetric(a, b, eps);
  }

  /** A polygon without vertices shares an edge with nothing. */
  lemma SharesEdgeEmpty(a: seq<Point>, eps: real)
    ensures !SharesEdge(a, [], eps) && !SharesEdge([], a, eps)
  {
    CloseToEmpty(a, eps);
  }

  // ---------------------------------------------------------------------------
  // IsPointInPolygon
  // ---------------------------------------------------------------------------

  /** The index that precedes `i` around a polygon of `n` vertices. */
  function Prev(i: nat, n: nat): nat
    requires 0 < n
  {
    if i == 0 then n - 1 else i - 1
  }

  /** The horizontal ray from `p` towards +x crosses the edge from `vj` to `vi`. */
  predicate Crosses(p: Point, vi: Point, vj: Point)
  {
    && ((vi.y > p.y) != (vj.y > p.y))
    && p.x < (vj.x - vi.x) * (p.y - vi.y) / (vj.y - vi.y) + vi.x
  }

  /** How many of the edges `(Prev(i), i)`, `i < k`, the ray from `p` crosses. */
  function Crossings(p: Point, poly: seq<Point>, k: nat): nat
    requires 0 < |poly| && k <= |poly|
  {
    if k == 0 then 0
    else Crossings(p, poly, k - 1) + (if Crosses(p, poly[k - 1], poly[Prev(k - 1, |poly|)]) then 1 else 0)
  }

  /** The even-odd rule: a point is inside when its ray crosses an odd number of edges. */
  predicate InPolygon(p: Point, poly: seq<Point>)
  {
    3 <= |poly| && Crossings(p, poly, |poly|) % 2 == 1
  }

  method IsPointInPolygon(point: Point, polygon: seq<Point>) returns (inside: bool)
    ensures inside == InPolygon(point, polygon)
  {
    hide Crosses;
    if |polygon| < 3 {
      return false;
    }
    inside := false;
    var i, j := 0, |polygon| - 1;
    while i < |polygon|
      invariant 0 <= i <= |polygon|
      invariant j == Prev(i, |polygon|)
      invariant inside == (Crossings(point, polygon, i) % 2 == 1)
    {
      if Crosses(point, polygon[i], polygon[j]) {
        inside := !inside;
      }
      j, i := i, i + 1;
    }
  }

  /** A ray at or above every vertex, or strictly below every vertex, crosses no edge. */
  lemma {:induction false} NoCrossingsOutsideSpan(p: Point, poly: seq<Point>, k: nat)
    requires 0 < |poly| && k <= |poly|
    requires (forall v :: v in poly ==> v.y <= p.y) || (forall v :: v in poly ==> v.y > p.y)
    ensures Crossings(p, poly, k) == 0
  {
    if k > 0 {
      NoCrossingsOutsideSpan(p, poly, k - 1);
      assert poly[k - 1] in poly && poly[Prev(k - 1, |poly|)] in poly;
    }
  }

  /** Points level with or above the topmost vertex, or below the lowest one, are outside. */
  lemma OutsideVerticalSpan(p: Point, poly: seq<Point>)
    requires (forall v :: v in poly ==> v.y <= p.y) || (forall v :: v in poly ==> v.y > p.y)
    ensures !InPolygon(p, poly)
  {
    if 0 < |poly| {
      NoCrossingsOutsideSpan(p, poly, |poly|);
    }
  }

  // ---------------------------------------------------------------------------
  // ShrinkPolygonTowardsCenter
  // ---------------------------------------------------------------------------

  /** The sum of the vertices, accumulated from the front. */
  function Sum(poly: seq<Point>): Point
  {
    if poly == [] then Zero else Add(Sum(poly[..|poly| - 1]), poly[|poly| - 1])
  }

  /** The vertex average (`center /= polygon.Count`). */
  function Centroid(poly: seq<Point>): Point
    requires 0 < |poly|
  {
    var s := Sum(poly);
    Point(s.x / |poly| as real, s.y / |poly| as real)
  }

  /** One vertex of the inset: unchanged when the gap is not positive or the
      vertex sits (within `Mathf.Epsilon`) on the centre, otherwise moved by
      `min(gap, 0.999 * dist)` along the normalized direction to the centre. */
  function InsetVertex(m: MathOracles, v: Point, c: Point, gap: real): Point
  {
    var dir := Sub(c, v);
    var dist := Magnitude(m, dir);
    if dist <= MathfEpsilon || gap <= 0.0 then v
    else Add(v, Scale(Normalized(m, dir), Min(gap, dist * 0.999)))
  }

  /** The vertex is left where it is: no positive gap, or the direction to the
      centre is too short for `normalized` to return a unit vector. */
  predicate InsetKeeps(v: Point, c: Point, gap: real)
  {
    gap <= 0.0 || SqDist(c, v) <= NormalizeEpsilon * NormalizeEpsilon
  }

  /** `w` is `v` moved along `c - v` by the fraction `s` of the distance
      `dist` from `v` to `c`, so that it covers `min(gap, 0.999 dist)`. */
  ghost predicate InsetFraction(v: Point, w: Point, c: Point, gap: real, s: real, dist: real)
  {
    && 0.0 < dist && dist * dist == SqDist(c, v)
    && 0.0 < s <= 0.999 && s * dist == Min(gap, dist * 0.999)
    && w == Add(v, Scale(Sub(c, v), s))
  }

  /** What the inset promises about one vertex `w` computed from `v`: either
      `v` unchanged, or `v` moved straight toward `c` by `min(gap, 0.999 dist)`. */
  ghost predicate InsetMoves(v: Point, w: Point, c: Point, gap: real)
  {
    if InsetKeeps(v, c, gap) then w == v
    else exists s, dist :: InsetFraction(v, w, c, gap, s, dist)
  }

  lemma MulPos(a: real, b: real)
    requires 0.0 < a && 0.0 < b
    ensures 0.0 < a * b
  {
  }

  lemma SquareMonotone(a: real, b: real)
    requires 0.0 <= a <= b
    ensures a * a <= b * b
  {
    assert a * a <= a * b <= b * b;
  }

  lemma SquareStrict(a: real, b: real)
    requires 0.0 <= a < b
    ensures a * a < b * b
  {
    MulPos(b - a, b + a);
    assert (b - a) * (b + a) == b * b - a * a;
  }

  lemma SquareOfProduct(a: real, s: real, k: real)
    requires k == s * s
    ensures (a * s) * (a * s) == k * (a * a)
  {
  }

  /** Scaling a vector by `s` scales its squared length by `s^2`. */
  lemma ScaledSqMag(d: Point, s: real, k: real)
    requires k == s * s
    ensures SqMag(Scale(d, s)) == k * SqMag(d)
  {
    SquareOfProduct(d.x, s, k);
    SquareOfProduct(d.y, s, k);
    assert k * (d.x * d.x + d.y * d.y) == k * (d.x * d.x) + k * (d.y * d.y);
  }

  lemma ProductSquare(s: real, dist: real, k: real, q: real, mv: real)
    requires k == s * s && q == dist * dist && mv == s * dist
    ensures k * q == mv * mv
  {
  }

  /** Moving `v` the fraction `s` of the way to `c` covers `s` times the distance `dist`. */
  lemma MoveDistance(v: Point, c: Point, s: real, dist: real)
    requires dist * dist == SqDist(c, v)
    ensures SqDist(Add(v, Scale(Sub(c, v), s)), v) == (s * dist) * (s * dist)
  {
    var dir := Sub(c, v);
    var w := Add(v, Scale(dir, s));
    assert Sub(w, v) == Scale(dir, s);
    ScaledSqMag(dir, s, s * s);
    ProductSquare(s, dist, s * s, SqDist(c, v), s * dist);
  }

  /** Moving by at most `gap` keeps the squared travel within `gap^2`. */
  lemma TravelBound(v: Point, c: Point, s: real, dist: real, gap: real)
    requires dist * dist == SqDist(c, v) && 0.0 <= s * dist <= gap
    ensures SqDist(Add(v, Scale(Sub(c, v), s)), v) <= gap * gap
  {
    MoveDistance(v, c, s, dist);
    SquareMonotone(s * dist, gap);
  }

  /** A vertex that moves travels at most `gap`. */
  lemma InsetTravel(v: Point, w: Point, c: Point, gap: real)
    requires InsetMoves(v, w, c, gap) && !InsetKeeps(v, c, gap)
    ensures SqDist(w, v) <= gap * gap
  {
    var s, dist :| InsetFraction(v, w, c, gap, s, dist);
    MulPos(s, dist);
    TravelBound(v, c, s, dist, gap);
  }

  lemma InsetVertexKept(m: MathOracles, v: Point, c: Point, gap: real)
    requires IsSqrt(m.sqrt) && InsetKeeps(v, c, gap)
    ensures InsetVertex(m, v, c, gap) == v
  {
    var dir := Sub(c, v);
    var dist := Magnitude(m, dir);
    SqMagNonNegative(dir);
    assert 0.0 <= dist && dist * dist == SqMag(dir);
    if gap > 0.0 {
      var e := NormalizeEpsilon;
      if dist > e { SquareStrict(e, dist); }
      assert Normalized(m, dir) == Zero;
    }
  }

  /** With a positive gap and a direction longer than `normalized`'s
      threshold, the vertex moves the fraction `min(gap, 0.999 dist) / dist`
      of the way to the centre. */
  lemma InsetVertexFraction(m: MathOracles, v: Point, c: Point, gap: real)
    returns (s: real, dist: real)
    requires IsSqrt(m.sqrt) && !InsetKeeps(v, c, gap)
    ensures InsetFraction(v, InsetVertex(m, v, c, gap), c, gap, s, dist)
  {
    var dir := Sub(c, v);
    SqMagNonNegative(dir);
    dist := Magnitude(m, dir);
    var e := NormalizeEpsilon;
    assert 0.0 <= dist && dist * dist == SqMag(dir);
    if dist <= e { SquareMonotone(dist, e); }
    var mv := Min(gap, dist * 0.999);
    s := (1.0 / dist) * mv;
    assert s * dist == mv;
    assert Scale(Normalized(m, dir), mv) == Scale(dir, s);
  }

  lemma InsetVertexMoves(m: MathOracles, v: Point, c: Point, gap: real)
    requires IsSqrt(m.sqrt)
    ensures InsetMoves(v, InsetVertex(m, v, c, gap), c, gap)
  {
    if InsetKeeps(v, c, gap) {
      InsetVertexKept(m, v, c, gap);
    } else {
      var s, dist := InsetVertexFraction(m, v, c, gap);
    }
  }

  method ShrinkPolygonTowardsCenter(polygon: seq<Point>, gap: real, m: MathOracles) returns (result: seq<Point>)
    requires IsSqrt(m.sqrt)
    ensures |result| == |polygon|
    ensures forall i :: 0 <= i < |polygon| ==> InsetMoves(polygon[i], result[i], Centroid(polygon), gap)
  {
    result := [];
    if |polygon| == 0 {
      return;
    }
    var center := Zero;
    for i := 0 to |polygon|
      invariant center == Sum(polygon[..i])
    {
      center := Add(center, polygon[i]);
      assert polygon[..i + 1][..i] == polygon[..i];
    }
    assert polygon[..|polygon|] == polygon;
    center := Point(center.x / |polygon| as real, center.y / |polygon| as real);
    for i := 0 to |polygon|
      invariant |result| == i
      invariant forall t :: 0 <= t < i ==> result[t] == InsetVertex(m, polygon[t], center, gap)
    {
      var v := polygon[i];
      var dir := Sub(center, v);
      var dist := Magnitude(m, dir);
      if dist <= MathfEpsilon || gap <= 0.0 {
        result := result + [v];
      } else {
        var move := Min(gap, dist * 0.999);
        result := result + [Add(v, Scale(Normalized(m, dir), move))];
      }
    }
    forall i | 0 <= i < |polygon|
      ensures InsetMoves(polygon[i], result[i], center, gap)
    {
      InsetVertexMoves(m, polygon[i], center, gap);
    }
  }

  // ---------------------------------------------------------------------------
  // EnsureMinVertices
  // ---------------------------------------------------------------------------

  /** The vertex after `i` around a polygon of `n` vertices, `(i + 1) % n`. */
  function Succ(i: nat, n: nat): nat
    requires i < n
  {
    if i + 1 == n then 0 else i + 1
  }

  /** Squared length of the edge from vertex `i` to the next one, the last edge closing the ring. */
  function EdgeSq(poly: seq<Point>, i: nat): real
    requires i < |poly|
  {
    SqDist(poly[Succ(i, |poly|)], poly[i])
  }

  /** The squared edge lengths, each known to be non-negative. */
  function EdgeLengths(poly: seq<Point>): (lens: seq<real>)
    ensures |lens| == |poly|
    ensures forall i :: 0 <= i < |poly| ==> lens[i] == EdgeSq(poly, i) && 0.0 <= lens[i]
  {
    seq(|poly|, i requires 0 <= i < |poly| =>
      SqMagNonNegative(Sub(poly[Succ(i, |poly|)], poly[i])); EdgeSq(poly, i))
  }

  /** `best` starts the first of the longest edges. */
  ghost predicate IsFirstLongestEdge(poly: seq<Point>, best: nat)
  {
    && best < |poly|
    && (forall i :: 0 <= i < |poly| ==> EdgeLengths(poly)[i] <= EdgeLengths(poly)[best])
    && (forall i :: 0 <= i < best ==> EdgeLengths(poly)[i] < EdgeLengths(poly)[best])
  }

  /** The first of the longest among the edges `0 .. n-1`. */
  function Longest(poly: seq<Point>, n: nat): (b: nat)
    requires 0 < n <= |poly|
    ensures b < n
    ensures forall i :: 0 <= i < n ==> EdgeLengths(poly)[i] <= EdgeLengths(poly)[b]
    ensures forall i :: 0 <= i < b ==> EdgeLengths(poly)[i] < EdgeLengths(poly)[b]
  {
    if n == 1 then 0
    else
      var b := Longest(poly, n - 1);
      if EdgeSq(poly, n - 1) > EdgeSq(poly, b) then n - 1 else b
  }

  /** A polygon has one first longest edge. */
  lemma FirstLongestUnique(poly: seq<Point>, a: nat, b: nat)
    requires IsFirstLongestEdge(poly, a) && IsFirstLongestEdge(poly, b)
    ensures a == b
  {
    var lens := EdgeLengths(poly);
    assert lens[a] == lens[b];
  }

  method LongestEdge(poly: seq<Point>) returns (best: nat)
    requires 0 < |poly|
    ensures IsFirstLongestEdge(poly, best)
    ensures best == Longest(poly, |poly|)
  {
    ghost var lens := EdgeLengths(poly);
    best := 0;
    var bestLen := 0.0;
    for i := 0 to |poly|
      invariant best < |poly| && (best == 0 || best < i)
      invariant i == 0 ==> bestLen == 0.0
      invariant 0 < i ==> bestLen == lens[best]
      invariant forall t :: 0 <= t < i ==> lens[t] <= bestLen
      invariant forall t :: 0 <= t < best ==> lens[t] < bestLen
    {
      var len := EdgeSq(poly, i);
      if len > bestLen {
        bestLen := len;
        best := i;
      }
    }
    FirstLongestUnique(poly, best, Longest(poly, |poly|));
  }

  /** The length a polygon of `count` vertices has after padding to `minVerts`
      with at most 32 insertions; an empty polygon stays empty. */
  function PaddedCount(count: nat, minVerts: int): nat
  {
    if count == 0 || minVerts <= count then count
    else if minVerts < count + 32 then minVerts else count + 32
  }

  function Midpoint(a: Point, b: Point): Point { Scale(Add(a, b), 0.5) }

  function Abs(r: real): real { if r < 0.0 then -r else r }

  /** One padding step: the midpoint of the first longest edge, moved by two
      draws in `[-1e-3, 1e-3]`, inserted right after that edge's first
      vertex. */
  function PadStep(poly: seq<Point>, rng: Rng): (res: (seq<Point>, Rng))
    requires 0 < |poly|
    ensures var at := Longest(poly, |poly|);
      && |res.0| == |poly| + 1
      && res.0 == poly[..at + 1] + [res.0[at + 1]] + poly[at + 1..]
      && NearMidpoint(res.0[at + 1], poly[at], poly[Succ(at, |poly|)])
      && res.1 == Skip(rng, 2)
  {
    var at := Longest(poly, |poly|);
    var mid := Midpoint(poly[at], poly[Succ(at, |poly|)]);
    var dx := Range(rng, -0.001, 0.001);
    var dy := Range(dx.1, -0.001, 0.001);
    (poly[..at + 1] + [Add(mid, Point(dx.0, dy.0))] + poly[at + 1..], dy.1)
  }

  /** `v` lies within `1e-3` per axis of the midpoint of `a` and `b`. */
  predicate NearMidpoint(v: Point, a: Point, b: Point)
  {
    var mid := Midpoint(a, b);
    Abs(v.x - mid.x) <= 0.001 && Abs(v.y - mid.y) <= 0.001
  }

  /** The polygon after `n` padding steps, and the stream after them. */
  function Padded(poly: seq<Point>, rng: Rng, n: nat): (res: (seq<Point>, Rng))
    requires 0 < |poly|
    ensures |res.0| == |poly| + n && res.1 == Skip(rng, 2 * n)
  {
    if n == 0 then (poly, rng)
    else
      var prev := Padded(poly, rng, n - 1);
      PadStep(prev.0, prev.1)
  }

  /** `Longest` finds the first longest edge. */
  lemma LongestIsFirst(poly: seq<Point>)
    requires 0 < |poly|
    ensures IsFirstLongestEdge(poly, Longest(poly, |poly|))
  {
  }

  /** Padding step `t` inserts its vertex right after the first longest
      edge of the polygon as padded so far, within `1e-3` per axis of that
      edge's midpoint, and leaves every other vertex in place. */
  ghost predicate PadsAt(poly: seq<Point>, rng: Rng, t: nat)
    requires 0 < |poly|
  {
    var prev := Padded(poly, rng, t).0;
    var next := Padded(poly, rng, t + 1).0;
    var at := Longest(prev, |prev|);
    && IsFirstLongestEdge(prev, at)
    && next == prev[..at + 1] + [next[at + 1]] + prev[at + 1..]
    && NearMidpoint(next[at + 1], prev[at], prev[Succ(at, |prev|)])
  }

  /** Padding step `t` in full. */
  lemma PaddedStep(poly: seq<Point>, rng: Rng, t: nat)
    requires 0 < |poly|
    ensures PadsAt(poly, rng, t)
  {
    hide PadStep, Longest, EdgeLengths, IsFirstLongestEdge, NearMidpoint;
    var prev := Padded(poly, rng, t);
    var next := PadStep(prev.0, prev.1);
    assert Padded(poly, rng, t + 1) == next;
    LongestIsFirst(prev.0);
  }

  /** Every padding step does so. */
  lemma PaddedNearMidpoints(poly: seq<Point>, rng: Rng, n: nat)
    requires 0 < |poly|
    ensures forall t :: 0 <= t < n ==> PadsAt(poly, rng, t)
  {
    forall t | 0 <= t < n
      ensures PadsAt(poly, rng, t)
    {
      PaddedStep(poly, rng, t);
    }
  }

  /** One padding step on the list itself. */
  method InsertMidpoint(poly: seq<Point>, rng: Rng) returns (padded: seq<Point>, at: nat, rngOut: Rng)
    requires 0 < |poly|
    ensures IsFirstLongestEdge(poly, at)
    ensures |padded| == |poly| + 1
    ensures padded == poly[..at + 1] + [padded[at + 1]] + poly[at + 1..]
    ensures NearMidpoint(padded[at + 1], poly[at], poly[Succ(at, |poly|)])
    ensures rngOut == Skip(rng, 2)
    ensures at == Longest(poly, |poly|) && (padded, rngOut) == PadStep(poly, rng)
  {
    hide EdgeLengths, IsFirstLongestEdge, Longest, NearMidpoint;
    at := LongestEdge(poly);
    var vA := poly[at];
    var next := (at + 1) % |poly|;
    assert next == Succ(at, |poly|);
    var vB := poly[next];
    var mid := Midpoint(vA, vB);
    var dx, r1 := Range(rng, -0.001, 0.001).0, Range(rng, -0.001, 0.001).1;
    var dy, r2 := Range(r1, -0.001, 0.001).0, Range(r1, -0.001, 0.001).1;
    mid := Add(mid, Point(dx, dy));
    padded := poly[..at + 1] + [mid] + poly[at + 1..];
    rngOut := r2;
    assert (padded, rngOut) == PadStep(poly, rng);
  }

  method EnsureMinVertices(polygon: seq<Point>, minVerts: int, rng: Rng) returns (result: seq<Point>, rngOut: Rng)
    ensures |result| == PaddedCount(|polygon|, minVerts)
    ensures IsSubsequence(polygon, result)
    ensures |polygon| == 0 || minVerts <= |polygon| ==> result == polygon
    ensures rngOut == Skip(rng, 2 * (|result| - |polygon|))
    ensures 0 < |polygon| ==> (result, rngOut) == Padded(polygon, rng, |result| - |polygon|)
  {
    result := polygon;
    rngOut := rng;
    ghost var idx := Identity(|polygon|);
    EmbedsSelf(polygon);
    if |result| == 0 {
      return;
    }
    var attempts := 0;
    while |result| < minVerts && attempts < 32
      invariant 0 <= attempts <= 32
      invariant |result| == |polygon| + attempts
      invariant attempts > 0 ==> |result| <= minVerts
      invariant Embeds(idx, polygon, result)
      invariant rngOut == Skip(rng, 2 * attempts)
      invariant attempts == 0 ==> result == polygon
      invariant (result, rngOut) == Padded(polygon, rng, attempts)
    {
      var at;
      var before := result;
      result, at, rngOut := InsertMidpoint(result, rngOut);
      EmbedsAfterInsert(idx, polygon, before, at + 1, result[at + 1]);
      idx := ShiftFrom(idx, at + 1);
      attempts := attempts + 1;
    }
  }

  // ---------------------------------------------------------------------------
  // MeshFromPolygon: vertex and triangle index layout
  // ---------------------------------------------------------------------------

  datatype Vertex3 = Vertex3(x: real, y: real, z: real)

  datatype MeshData = MeshData(vertices: seq<Vertex3>, triangles: seq<int>)

  /** `new int[negative]` throws an overflow exception; writing past the end
      of `tris` throws an index exception. */
  datatype MeshFault = NegativeArraySize | IndexOutOfRange

  datatype MeshResult = Built(mesh: MeshData) | Failed(fault: MeshFault)

  function At(p: Point, z: real): Vertex3 { Vertex3(p.x, p.y, z) }

  /** The triangle at `t` in `tris` is `(a, b, c)`. */
  ghost predicate Triangle(tris: seq<int>, t: nat, a: int, b: int, c: int)
  {
    3 * t + 2 < |tris| && tris[3 * t] == a && tris[3 * t + 1] == b && tris[3 * t + 2] == c
  }

  /** Triangle `t` of the front cap fan: `(0, t+1, t+2)`. */
  ghost predicate FrontFan(tris: seq<int>, t: nat)
  {
    Triangle(tris, t, 0, t + 1, t + 2)
  }

  /** Triangle `t` of the back cap fan (opposite winding), stored after the `n - 2` front ones. */
  ghost predicate BackFan(tris: seq<int>, n: nat, t: nat)
    requires 2 <= n
  {
    Triangle(tris, n - 2 + t, n, n + t + 2, n + t + 1)
  }

  /** The two triangles of side quad `q`, stored after both caps. */
  ghost predicate SideQuad(tris: seq<int>, n: nat, q: nat)
    requires 2 <= n
  {
    var s := 2 * n + 4 * q;
    Triangle(tris, 2 * (n - 2) + 2 * q, s, s + 1, s + 2) &&
    Triangle(tris, 2 * (n - 2) + 2 * q + 1, s, s + 2, s + 3)
  }

  /** The four vertices of side quad `i`: edge `i` to `i + 1` (wrapping), front then back. */
  ghost predicate SideVertices(polygon: seq<Point>, ext: real, verts: seq<Vertex3>, i: nat)
    requires i < |polygon| && 6 * |polygon| <= |verts|
  {
    var n := |polygon|;
    var s := 2 * n + 4 * i;
    var nx := if i == n - 1 then 0 else i + 1;
    verts[s] == At(polygon[i], ext) && verts[s + 1] == At(polygon[i], -ext) &&
    verts[s + 2] == At(polygon[nx], -ext) && verts[s + 3] == At(polygon[nx], ext)
  }

  /** The extruded prism of a polygon with `n >= 2` vertices: a front ring, a
      back ring, then four vertices per side quad; front and back caps as
      fans, then two triangles per side. */
  ghost predicate PrismLayout(polygon: seq<Point>, ext: real, mesh: MeshData)
  {
    var n := |polygon|;
    var V := mesh.vertices;
    var T := mesh.triangles;
    && 2 <= n && |V| == 6 * n && |T| == 3 * (4 * n - 4)
    && (forall i :: 0 <= i < n ==> V[i] == At(polygon[i], ext) && V[n + i] == At(polygon[i], -ext))
    && (forall i :: 0 <= i < n ==> SideVertices(polygon, ext, V, i))
    && (forall t :: 0 <= t < n - 2 ==> FrontFan(T, t))
    && (forall t :: 0 <= t < n - 2 ==> BackFan(T, n, t))
    && (forall q :: 0 <= q < n ==> SideQuad(T, n, q))
  }

  /** Entries below `lo` agree, so every triangle stored below `lo` agrees. */
  lemma TriangleBelow(prev: seq<int>, cur: seq<int>, lo: nat, t: nat, a: int, b: int, c: int)
    requires |prev| == |cur| && lo <= |cur| && prev[..lo] == cur[..lo]
    requires 3 * t + 2 < lo && Triangle(prev, t, a, b, c)
    ensures Triangle(cur, t, a, b, c)
  {
    assert cur[3 * t] == cur[..lo][3 * t];
    assert cur[3 * t + 1] == cur[..lo][3 * t + 1];
    assert cur[3 * t + 2] == cur[..lo][3 * t + 2];
  }

  /** Entries below `lo` agree, so the four vertices of every side stored below `lo` agree. */
  lemma SideVerticesBelow(polygon: seq<Point>, ext: real, prev: seq<Vertex3>, cur: seq<Vertex3>, lo: nat, i: nat)
    requires |prev| == |cur| == 6 * |polygon| && lo <= |cur| && prev[..lo] == cur[..lo]
    requires i < |polygon| && 2 * |polygon| + 4 * i + 3 < lo && SideVertices(polygon, ext, prev, i)
    ensures SideVertices(polygon, ext, cur, i)
  {
    var s := 2 * |polygon| + 4 * i;
    assert cur[s] == cur[..lo][s] && cur[s + 1] == cur[..lo][s + 1];
    assert cur[s + 2] == cur[..lo][s + 2] && cur[s + 3] == cur[..lo][s + 3];
  }

  /** Entries below the first `k` side quads agree, so those side quads agree. */
  lemma QuadsBelow(prev: seq<int>, cur: seq<int>, n: nat, k: nat)
    requires 2 <= n && |prev| == |cur| && 6 * (n - 2) + 6 * k <= |cur|
    requires prev[..6 * (n - 2) + 6 * k] == cur[..6 * (n - 2) + 6 * k]
    requires forall q :: 0 <= q < k ==> SideQuad(prev, n, q)
    ensures forall q :: 0 <= q < k ==> SideQuad(cur, n, q)
  {
    var lo := 6 * (n - 2) + 6 * k;
    forall q | 0 <= q < k
      ensures SideQuad(cur, n, q)
    {
      var s := 2 * n + 4 * q;
      assert SideQuad(prev, n, q);
      TriangleBelow(prev, cur, lo, 2 * (n - 2) + 2 * q, s, s + 1, s + 2);
      TriangleBelow(prev, cur, lo, 2 * (n - 2) + 2 * q + 1, s, s + 2, s + 3);
    }
  }

  /** The first two vertex loops of `MeshFromPolygon`: the polygon at height `z`, from index `start`. */
  method WriteRing(verts: array<Vertex3>, polygon: seq<Point>, start: nat, z: real)
    requires start + |polygon| <= verts.Length
    modifies verts
    ensures forall t :: 0 <= t < |polygon| ==> verts[start + t] == At(polygon[t], z)
    ensures forall j :: 0 <= j < verts.Length && (j < start || start + |polygon| <= j) ==> verts[j] == old(verts[j])
  {
    var vi := start;
    for i := 0 to |polygon|
      invariant vi == start + i
      invariant forall t :: 0 <= t < i ==> verts[start + t] == At(polygon[t], z)
      invariant forall j :: 0 <= j < verts.Length && (j < start || start + i <= j) ==> verts[j] == old(verts[j])
    {
      verts[vi] := At(polygon[i], z);
      vi := vi + 1;
    }
  }

  /** The third vertex loop of `MeshFromPolygon`: four vertices per side, after both rings. */
  method WriteSideVertices(verts: array<Vertex3>, polygon: seq<Point>, ext: real)
    requires verts.Length == 6 * |polygon|
    modifies verts
    ensures verts[..2 * |polygon|] == old(verts[..2 * |polygon|])
    ensures forall i :: 0 <= i < |polygon| ==> SideVertices(polygon, ext, verts[..], i)
  {
    var count := |polygon|;
    var vi := 2 * count;
    for i := 0 to count
      invariant vi == 2 * count + 4 * i
      invariant verts[..2 * count] == old(verts[..2 * count])
      invariant forall t :: 0 <= t < i ==> SideVertices(polygon, ext, verts[..], t)
    {
      ghost var prev := verts[..];
      var iNext := if i == count - 1 then 0 else i + 1;
      verts[vi] := At(polygon[i], ext);
      verts[vi + 1] := At(polygon[i], -ext);
      verts[vi + 2] := At(polygon[iNext], -ext);
      verts[vi + 3] := At(polygon[iNext], ext);
      assert verts[..vi] == prev[..vi];
      forall t | 0 <= t < i
        ensures SideVertices(polygon, ext, verts[..], t)
      {
        SideVerticesBelow(polygon, ext, prev, verts[..], vi, t);
      }
      vi := vi + 4;
    }
  }

  /** The front cap loop of `MeshFromPolygon`: a fan around vertex 0, from index 0. */
  method WriteFrontCap(tris: array<int>, count: nat)
    requires 2 <= count && tris.Length == 3 * (4 * count - 4)
    modifies tris
    ensures forall t :: 0 <= t < count - 2 ==> FrontFan(tris[..], t)
  {
    var ti := 0;
    var vert := 2;
    while vert < count
      invariant 2 <= vert <= count
      invariant ti == 3 * (vert - 2)
      invariant forall t :: 0 <= t < vert - 2 ==> FrontFan(tris[..], t)
    {
      ghost var prev := tris[..];
      tris[ti], tris[ti + 1], tris[ti + 2] := 0, vert - 1, vert;
      assert tris[..ti] == prev[..ti];
      forall t | 0 <= t < vert - 2
        ensures FrontFan(tris[..], t)
      {
        assert FrontFan(prev, t);
        TriangleBelow(prev, tris[..], ti, t, 0, t + 1, t + 2);
      }
      ti := ti + 3;
      vert := vert + 1;
    }
  }

  /** The back cap loop of `MeshFromPolygon`: a fan around vertex `count`,
      wound the other way, after the front cap. */
  method WriteBackCap(tris: array<int>, count: nat)
    requires 2 <= count && tris.Length == 3 * (4 * count - 4)
    modifies tris
    ensures tris[..3 * (count - 2)] == old(tris[..3 * (count - 2)])
    ensures forall t :: 0 <= t < count - 2 ==> BackFan(tris[..], count, t)
  {
    var ti := 3 * (count - 2);
    var vert := 2;
    while vert < count
      invariant 2 <= vert <= count
      invariant ti == 3 * (count - 2 + vert - 2)
      invariant tris[..3 * (count - 2)] == old(tris[..3 * (count - 2)])
      invariant forall t :: 0 <= t < vert - 2 ==> BackFan(tris[..], count, t)
    {
      ghost var prev := tris[..];
      tris[ti], tris[ti + 1], tris[ti + 2] := count, count + vert, count + vert - 1;
      assert tris[..ti] == prev[..ti];
      forall t | 0 <= t < vert - 2
        ensures BackFan(tris[..], count, t)
      {
        assert BackFan(prev, count, t);
        TriangleBelow(prev, tris[..], ti, count - 2 + t, count, count + t + 2, count + t + 1);
      }
      ti := ti + 3;
      vert := vert + 1;
    }
  }

  /** One pass of the side loop: the two triangles of a quad whose first vertex is `s`. */
  method WriteQuad(tris: array<int>, tri: nat, s: int)
    requires 3 * tri + 5 < tris.Length
    modifies tris
    ensures tris[..3 * tri] == old(tris[..3 * tri])
    ensures Triangle(tris[..], tri, s, s + 1, s + 2) && Triangle(tris[..], tri + 1, s, s + 2, s + 3)
  {
    var ti := 3 * tri;
    tris[ti] := s;
    tris[ti + 1] := s + 1;
    tris[ti + 2] := s + 2;
    tris[ti + 3] := s;
    tris[ti + 4] := s + 2;
    tris[ti + 5] := s + 3;
  }

  /** The side loop of `MeshFromPolygon`: two triangles per side quad, after both caps. */
  method WriteSideQuads(tris: array<int>, count: nat)
    requires 2 <= count && tris.Length == 3 * (4 * count - 4)
    modifies tris
    ensures tris[..6 * (count - 2)] == old(tris[..6 * (count - 2)])
    ensures forall q :: 0 <= q < count ==> SideQuad(tris[..], count, q)
  {
    var ti := 6 * (count - 2);
    for vert := 0 to count
      invariant ti == 6 * (count - 2) + 6 * vert
      invariant tris[..6 * (count - 2)] == old(tris[..6 * (count - 2)])
      invariant forall q :: 0 <= q < vert ==> SideQuad(tris[..], count, q)
    {
      ghost var prev := tris[..];
      WriteQuad(tris, 2 * (count - 2) + 2 * vert, 2 * count + 4 * vert);
      QuadsBelow(prev, tris[..], count, vert);
      assert tris[..6 * (count - 2)] == tris[..ti][..6 * (count - 2)];
      ti := ti + 6;
    }
  }

  /** The vertex pass of `MeshFromPolygon`: front ring, back ring, side vertices. */
  method WriteVertices(verts: array<Vertex3>, polygon: seq<Point>, ext: real)
    requires verts.Length == 6 * |polygon|
    modifies verts
    ensures forall i :: 0 <= i < |polygon| ==>
      verts[i] == At(polygon[i], ext) && verts[|polygon| + i] == At(polygon[i], -ext)
    ensures forall i :: 0 <= i < |polygon| ==> SideVertices(polygon, ext, verts[..], i)
  {
    var count := |polygon|;
    WriteRing(verts, polygon, 0, ext);
    WriteRing(verts, polygon, count, -ext);
    ghost var rings := verts[..];
    WriteSideVertices(verts, polygon, ext);
    forall i | 0 <= i < count
      ensures verts[i] == At(polygon[i], ext) && verts[count + i] == At(polygon[i], -ext)
    {
      assert verts[i] == verts[..2 * count][i] && rings[i] == rings[..2 * count][i];
      assert verts[count + i] == verts[..2 * count][count + i];
      assert rings[count + i] == rings[..2 * count][count + i];
    }
  }

  /** The index pass of `MeshFromPolygon` for at least two vertices: both cap
      fans, then the side quads. */
  method WriteTriangles(tris: array<int>, count: nat)
    requires 2 <= count && tris.Length == 3 * (4 * count - 4)
    modifies tris
    ensures forall t :: 0 <= t < count - 2 ==> FrontFan(tris[..], t) && BackFan(tris[..], count, t)
    ensures forall q :: 0 <= q < count ==> SideQuad(tris[..], count, q)
  {
    WriteFrontCap(tris, count);
    ghost var front := tris[..];
    WriteBackCap(tris, count);
    forall t | 0 <= t < count - 2
      ensures FrontFan(tris[..], t)
    {
      assert FrontFan(front, t);
      TriangleBelow(front, tris[..], 3 * (count - 2), t, 0, t + 1, t + 2);
    }
    ghost var caps := tris[..];
    WriteSideQuads(tris, count);
    forall t | 0 <= t < count - 2
      ensures FrontFan(tris[..], t) && BackFan(tris[..], count, t)
    {
      assert FrontFan(caps, t) && BackFan(caps, count, t);
      TriangleBelow(caps, tris[..], 6 * (count - 2), t, 0, t + 1, t + 2);
      TriangleBelow(caps, tris[..], 6 * (count - 2), count - 2 + t, count, count + t + 2, count + t + 1);
    }
  }

  /** `MeshFromPolygon` as far as its layout goes: an empty polygon makes the
      index buffer size negative, a single vertex overruns the empty index
      buffer on the first side quad, and otherwise the result is the prism. */
  method MeshFromPolygon(polygon: seq<Point>, thickness: real) returns (r: MeshResult)
    ensures |polygon| == 0 <==> r == Failed(NegativeArraySize)
    ensures |polygon| == 1 <==> r == Failed(IndexOutOfRange)
    ensures 2 <= |polygon| ==> r.Built? && PrismLayout(polygon, 0.5 * thickness, r.mesh)
  {
    var count := |polygon|;
    if 3 * (4 * count - 4) < 0 {
      return Failed(NegativeArraySize);
    }
    var ext := 0.5 * thickness;
    var verts := new Vertex3[6 * count];
    WriteVertices(verts, polygon, ext);
    var tris := new int[3 * (4 * count - 4)];
    if count == 1 {
      // Both cap loops are empty; the first side write overruns the empty index buffer.
      return Failed(IndexOutOfRange);
    }
    WriteTriangles(tris, count);
    r := Built(MeshData(verts[..], tris[..]));
  }

  /** Triangle `t` of `tris` names three distinct vertices below `bound`. */
  ghost predicate ProperTriangle(tris: seq<int>, t: nat, bound: int)
  {
    && 3 * t + 2 < |tris|
    && 0 <= tris[3 * t] < bound && 0 <= tris[3 * t + 1] < bound && 0 <= tris[3 * t + 2] < bound
    && tris[3 * t] != tris[3 * t + 1] && tris[3 * t + 1] != tris[3 * t + 2] && tris[3 * t] != tris[3 * t + 2]
  }

  lemma CapTrianglesProper(polygon: seq<Point>, ext: real, mesh: MeshData, t: nat)
    requires PrismLayout(polygon, ext, mesh) && t < 2 * (|polygon| - 2)
    ensures ProperTriangle(mesh.triangles, t, |mesh.vertices|)
  {
    var n := |polygon|;
    if t < n - 2 {
      assert FrontFan(mesh.triangles, t);
    } else {
      assert BackFan(mesh.triangles, n, t - (n - 2));
    }
  }

  lemma SideTrianglesProper(polygon: seq<Point>, ext: real, mesh: MeshData, q: nat)
    requires PrismLayout(polygon, ext, mesh) && q < |polygon|
    ensures ProperTriangle(mesh.triangles, 2 * (|polygon| - 2) + 2 * q, |mesh.vertices|)
    ensures ProperTriangle(mesh.triangles, 2 * (|polygon| - 2) + 2 * q + 1, |mesh.vertices|)
  {
    assert SideQuad(mesh.triangles, |polygon|, q);
  }

  /** Every triangle of the prism names three distinct vertices among its `6 n`. */
  lemma PrismTrianglesProper(polygon: seq<Point>, ext: real, mesh: MeshData)
    requires PrismLayout(polygon, ext, mesh)
    ensures forall t :: 0 <= t < 4 * |polygon| - 4 ==> ProperTriangle(mesh.triangles, t, |mesh.vertices|)
  {
    var n := |polygon|;
    forall t | 0 <= t < 4 * n - 4
      ensures ProperTriangle(mesh.triangles, t, |mesh.vertices|)
    {
      if t < 2 * (n - 2) {
        CapTrianglesProper(polygon, ext, mesh, t);
      } else {
        var q := (t - 2 * (n - 2)) / 2;
        SideTrianglesProper(polygon, ext, mesh, q);
      }
    }
  }

  /** Every entry of the index buffer refers to an existing vertex. */
  lemma PrismIndicesInRange(polygon: seq<Point>, ext: real, mesh: MeshData)
    requires PrismLayout(polygon, ext, mesh)
    ensures forall k :: 0 <= k < |mesh.triangles| ==> 0 <= mesh.triangles[k] < |mesh.vertices|
  {
    PrismTrianglesProper(polygon, ext, mesh);
    forall k | 0 <= k < |mesh.triangles|
      ensures 0 <= mesh.triangles[k] < |mesh.vertices|
    {
      var t := k / 3;
      assert ProperTriangle(mesh.triangles, t, |mesh.vertices|);
      assert k == 3 * t || k == 3 * t + 1 || k == 3 * t + 2;
    }
  }
}
