/** `MapGenerator`: the glue that turns the starting polygon into playable
    cells. It computes the polygon's bounds, samples sites, adds neighbours
    around the centre, protects the sites near the centre, reduces the
    sites, cuts one piece per Voronoi cell, picks the start piece and links
    the cells into a graph. */
module MapGeneration {
  import opened Geometry
  import opened Sequences
  import opened UnityRandom
  import PolygonUtils
  import PoissonSampling
  import SiteReduction
  import opened CellModels
  import CellGraphBuilder

  /** The serialized settings of a `MapGenerator` (colours left out). */
  datatype Config = Config(
    thickness: real,
    gap: real,
    minSiteDistance: real,
    poissonAttempts: int,
    maxSamples: int,
    maxPieces: int,
    minPolygonCorners: int,
    extraCenterNeighbors: int,
    centerNeighborRadius: real,
    centerNeighborJitter: real)

  // ---------------------------------------------------------------------------
  // CalculatePolygonBounds
  // ---------------------------------------------------------------------------

  /** The bounds the scan below reaches: each vertex in turn lowers the
      minimum or raises the maximum it lies beyond, starting from
      `(float.MaxValue, float.MaxValue)` and `(float.MinValue, float.MinValue)`. */
  function Bounds(polygon: seq<Point>): (Point, Point)
    decreases |polygon|
  {
    if |polygon| == 0 then (Point(FloatMax, FloatMax), Point(FloatMin, FloatMin))
    else
      var b := Bounds(polygon[..|polygon| - 1]);
      var v := polygon[|polygon| - 1];
      (Point(if v.x < b.0.x then v.x else b.0.x, if v.y < b.0.y then v.y else b.0.y),
       Point(if v.x > b.1.x then v.x else b.1.x, if v.y > b.1.y then v.y else b.1.y))
  }

  /** `CalculatePolygonBounds`: the componentwise minimum and maximum of the
      vertices, starting from `(float.MaxValue, float.MaxValue)` and
      `(float.MinValue, float.MinValue)`. Every vertex lies within the
      bounds, and each bound is a vertex coordinate unless it is still its
      starting value. */
  method CalculatePolygonBounds(polygon: seq<Point>) returns (boundsMin: Point, boundsMax: Point)
    ensures (boundsMin, boundsMax) == Bounds(polygon)
    ensures forall i :: 0 <= i < |polygon| ==>
      boundsMin.x <= polygon[i].x <= boundsMax.x && boundsMin.y <= polygon[i].y <= boundsMax.y
    ensures boundsMin.x <= FloatMax && boundsMin.y <= FloatMax
    ensures FloatMin <= boundsMax.x && FloatMin <= boundsMax.y
    ensures boundsMin.x == FloatMax || exists i :: 0 <= i < |polygon| && polygon[i].x == boundsMin.x
    ensures boundsMin.y == FloatMax || exists i :: 0 <= i < |polygon| && polygon[i].y == boundsMin.y
    ensures boundsMax.x == FloatMin || exists i :: 0 <= i < |polygon| && polygon[i].x == boundsMax.x
    ensures boundsMax.y == FloatMin || exists i :: 0 <= i < |polygon| && polygon[i].y == boundsMax.y
    ensures |polygon| == 0 ==> boundsMin == Point(FloatMax, FloatMax) && boundsMax == Point(FloatMin, FloatMin)
  {
    boundsMin := Point(FloatMax, FloatMax);
    boundsMax := Point(FloatMin, FloatMin);
    for i := 0 to |polygon|
      invariant (boundsMin, boundsMax) == Bounds(polygon[..i])
    {
      assert polygon[..i + 1][..i] == polygon[..i];
      var v := polygon[i];
      if v.x < boundsMin.x {
        boundsMin := boundsMin.(x := v.x);
      }
      if v.y < boundsMin.y {
        boundsMin := boundsMin.(y := v.y);
      }
      if v.x > boundsMax.x {
        boundsMax := boundsMax.(x := v.x);
      }
      if v.y > boundsMax.y {
        boundsMax := boundsMax.(y := v.y);
      }
    }
    assert polygon[..|polygon|] == polygon;
    BoundsEnclose(polygon);
  }

  /** The bounds enclose every vertex, and each is a vertex coordinate unless
      it is still its starting value. */
  lemma {:induction false} BoundsEnclose(polygon: seq<Point>)
    decreases |polygon|
    ensures var b := Bounds(polygon);
      && (forall i :: 0 <= i < |polygon| ==>
            b.0.x <= polygon[i].x <= b.1.x && b.0.y <= polygon[i].y <= b.1.y)
      && b.0.x <= FloatMax && b.0.y <= FloatMax && FloatMin <= b.1.x && FloatMin <= b.1.y
      && (b.0.x == FloatMax || exists i :: 0 <= i < |polygon| && polygon[i].x == b.0.x)
      && (b.0.y == FloatMax || exists i :: 0 <= i < |polygon| && polygon[i].y == b.0.y)
      && (b.1.x == FloatMin || exists i :: 0 <= i < |polygon| && polygon[i].x == b.1.x)
      && (b.1.y == FloatMin || exists i :: 0 <= i < |polygon| && polygon[i].y == b.1.y)
      && (|polygon| == 0 ==> b == (Point(FloatMax, FloatMax), Point(FloatMin, FloatMin)))
  {
    if |polygon| > 0 {
      var init := polygon[..|polygon| - 1];
      BoundsEnclose(init);
      assert forall i :: 0 <= i < |init| ==> init[i] == polygon[i];
    }
  }

  /** For a non-empty polygon of single-precision vertices every bound is
      attained by a vertex. */
  lemma BoundsAttained(polygon: seq<Point>, boundsMin: Point, boundsMax: Point)
    requires 0 < |polygon| && forall i :: 0 <= i < |polygon| ==> Finite(polygon[i])
    requires forall i :: 0 <= i < |polygon| ==>
      boundsMin.x <= polygon[i].x <= boundsMax.x && boundsMin.y <= polygon[i].y <= boundsMax.y
    requires boundsMin.x == FloatMax || exists i :: 0 <= i < |polygon| && polygon[i].x == boundsMin.x
    requires boundsMax.x == FloatMin || exists i :: 0 <= i < |polygon| && polygon[i].x == boundsMax.x
    requires boundsMin.y == FloatMax || exists i :: 0 <= i < |polygon| && polygon[i].y == boundsMin.y
    requires boundsMax.y == FloatMin || exists i :: 0 <= i < |polygon| && polygon[i].y == boundsMax.y
    ensures exists i :: 0 <= i < |polygon| && polygon[i].x == boundsMin.x
    ensures exists i :: 0 <= i < |polygon| && polygon[i].x == boundsMax.x
    ensures exists i :: 0 <= i < |polygon| && polygon[i].y == boundsMin.y
    ensures exists i :: 0 <= i < |polygon| && polygon[i].y == boundsMax.y
  {
    assert Finite(polygon[0]);
  }

  // ---------------------------------------------------------------------------
  // BuildInitialSites
  // ---------------------------------------------------------------------------

  /** Squared distance below which a sample is taken to be the centre itself (`1e-6f`). */
  const CoincidentSq: real := 0.000001

  /** The samples that do not coincide with `center`, in order. */
  function AwayFrom(samples: seq<Point>, center: Point): (r: seq<Point>)
    ensures |r| <= |samples|
  {
    if samples == [] then []
    else
      var last := samples[|samples| - 1];
      AwayFrom(samples[..|samples| - 1], center) + (if SqDist(last, center) < CoincidentSq then [] else [last])
  }

  /** `AwayFrom` keeps exactly the samples at squared distance at least
      `1e-6` from the centre, at increasing positions `idx`. */
  lemma {:induction false} AwayFromSelects(samples: seq<Point>, center: Point) returns (idx: seq<nat>)
    ensures Embeds(idx, AwayFrom(samples, center), samples)
    ensures forall i :: 0 <= i < |samples| ==> (i in idx <==> CoincidentSq <= SqDist(samples[i], center))
  {
    if samples == [] {
      idx := [];
    } else {
      var n := |samples| - 1;
      var init := samples[..n];
      var prev := AwayFromSelects(init, center);
      assert forall i :: 0 <= i < n ==> init[i] == samples[i];
      if SqDist(samples[n], center) < CoincidentSq {
        idx := prev;
      } else {
        EmbedsAppend(prev, AwayFrom(init, center), samples, n);
        idx := prev + [n];
      }
    }
  }

  /** `BuildInitialSites`: the centre, then every sample not coinciding with it. */
  method BuildInitialSites(center: Point, samples: seq<Point>) returns (sites: seq<Point>)
    ensures sites == [center] + AwayFrom(samples, center)
  {
    sites := [center];
    for i := 0 to |samples|
      invariant sites == [center] + AwayFrom(samples[..i], center)
    {
      assert samples[..i + 1][..i] == samples[..i];
      if SqDist(samples[i], center) < CoincidentSq {
        continue;
      }
      sites := sites + [samples[i]];
    }
    assert samples[..|samples|] == samples;
  }

  // ---------------------------------------------------------------------------
  // Sites near the centre
  // ---------------------------------------------------------------------------

  /** How many of the sites at positions `1 .. n-1` lie within `radius` of `position`. */
  function NearCount(sites: seq<Point>, position: Point, radius: real, n: nat): (c: nat)
    requires n <= |sites|
    ensures c < n || c == 0
  {
    if n <= 1 then 0
    else NearCount(sites, position, radius, n - 1) + (if WithinRadius(sites[n - 1], position, radius) then 1 else 0)
  }

  /** The count only looks at the first `n` sites. */
  lemma {:induction false} NearCountPrefix(sites: seq<Point>, longer: seq<Point>, position: Point, radius: real, n: nat)
    requires n <= |sites| <= |longer| && longer[..|sites|] == sites
    ensures NearCount(longer, position, radius, n) == NearCount(sites, position, radius, n)
  {
    if n > 1 {
      assert longer[n - 1] == sites[n - 1];
      NearCountPrefix(sites, longer, position, radius, n - 1);
    }
  }

  /** Appending sites that all lie within the radius raises the count by
      their number (the first site, the centre, is never counted). */
  lemma {:induction false} NearCountTopUp(sites: seq<Point>, result: seq<Point>, position: Point, radius: real)
    requires 1 <= |sites| <= |result| && result[..|sites|] == sites
    requires forall j :: |sites| <= j < |result| ==> WithinRadius(result[j], position, radius)
    ensures NearCount(result, position, radius, |result|) == NearCount(sites, position, radius, |sites|) + (|result| - |sites|)
  {
    if |result| == |sites| {
      assert result == sites;
    } else {
      var init := result[..|result| - 1];
      assert init[..|sites|] == sites;
      NearCountTopUp(sites, init, position, radius);
      NearCountPrefix(init, result, position, radius, |init|);
    }
  }

  /** The first loop of `EnsureCenterNeighbors`: the sites after the first
      within `radius` of `position`. */
  method CountCenterNeighbors(sites: seq<Point>, position: Point, radius: real) returns (neighbors: nat)
    ensures neighbors == NearCount(sites, position, radius, |sites|)
  {
    neighbors := 0;
    var i := 1;
    while i < |sites|
      invariant 1 <= i && (i <= |sites| || |sites| == 0)
      invariant neighbors == NearCount(sites, position, radius, if |sites| == 0 then 0 else i)
    {
      if WithinRadius(sites[i], position, radius) {
        neighbors := neighbors + 1;
      }
      i := i + 1;
    }
  }

  /** Index 0, then each index `i` in `1 .. n-1` whose site lies within
      `radius` of `position`, in increasing order. */
  function NearIndices(sites: seq<Point>, position: Point, radius: real, n: nat): (r: seq<int>)
    requires n <= |sites|
    ensures |r| == 1 + NearCount(sites, position, radius, n) && r[0] == 0
  {
    if n <= 1 then [0]
    else NearIndices(sites, position, radius, n - 1) + (if WithinRadius(sites[n - 1], position, radius) then [n - 1] else [])
  }

  /** `GetProtectedIndices`: index 0, then every later index whose site lies
      within `radius` of `position`, in increasing order. */
  method GetProtectedIndices(sites: seq<Point>, position: Point, radius: real) returns (protectedIndices: seq<int>)
    ensures protectedIndices == NearIndices(sites, position, radius, |sites|)
    ensures |protectedIndices| == 1 + NearCount(sites, position, radius, |sites|)
    ensures protectedIndices[0] == 0
    ensures forall s, t :: 0 <= s < t < |protectedIndices| ==> protectedIndices[s] < protectedIndices[t]
    ensures forall t :: 0 <= t < |protectedIndices| ==> 0 <= protectedIndices[t] < |sites| || |sites| == 0
    ensures forall i :: 1 <= i < |sites| ==> (i in protectedIndices <==> WithinRadius(sites[i], position, radius))
  {
    protectedIndices := [0];
    var i := 1;
    while i < |sites|
      invariant 1 <= i && (i <= |sites| || |sites| == 0)
      invariant protectedIndices == NearIndices(sites, position, radius, if |sites| == 0 then 0 else i)
    {
      if WithinRadius(sites[i], position, radius) {
        protectedIndices := protectedIndices + [i];
      }
      i := i + 1;
    }
    NearIndicesOrdered(sites, position, radius, |sites|);
  }

  /** The near indices strictly increase, index the first `n` sites, and
      list exactly the near ones. */
  lemma {:induction false} NearIndicesOrdered(sites: seq<Point>, position: Point, radius: real, n: nat)
    requires n <= |sites|
    ensures var r := NearIndices(sites, position, radius, n);
      && (forall s, t :: 0 <= s < t < |r| ==> r[s] < r[t])
      && (forall t :: 0 <= t < |r| ==> 0 <= r[t] < n || n == 0)
      && (forall i :: 1 <= i < n ==> (i in r <==> WithinRadius(sites[i], position, radius)))
  {
    if n > 1 {
      NearIndicesOrdered(sites, position, radius, n - 1);
    }
  }

  // ---------------------------------------------------------------------------
  // EnsureCenterNeighbors
  // ---------------------------------------------------------------------------

  /** `cos` and `sin` lie on the unit circle. */
  ghost predicate UnitCircle(m: MathOracles) {
    forall a :: m.cos(a) * m.cos(a) + m.sin(a) * m.sin(a) == 1.0
  }

  /** The clearance a new neighbour keeps from every site: `(0.6 minSiteDistance)^2`. */
  function ClearanceSq(cfg: Config): real {
    cfg.minSiteDistance * cfg.minSiteDistance * 0.36
  }

  /** The `n`-th of `need` candidates around `position`: at angle
      `2 pi n / need` plus a jitter draw, at distance `radius (0.8 + d)` for a
      second draw `d` in `[-0.12, 0.12]`. */
  function NeighborCandidate(position: Point, n: nat, need: nat, cfg: Config, rng: Rng, m: MathOracles): (res: (Point, Rng))
    requires 0 < need
    ensures res.1 == Skip(rng, 2)
  {
    var jitter := Range(rng, -cfg.centerNeighborJitter, cfg.centerNeighborJitter);
    var angle := 2.0 * Pi * (n as real / need as real) + jitter.0;
    var spread := Range(jitter.1, -0.12, 0.12);
    var dist := cfg.centerNeighborRadius * (0.8 + spread.0);
    (Polar(m, position, dist, angle), spread.1)
  }

  lemma UnitScale(r: real, c: real, s: real)
    requires c * c + s * s == 1.0
    ensures (r * c) * (r * c) + (r * s) * (r * s) == r * r
  {
    calc {
      (r * c) * (r * c) + (r * s) * (r * s);
      (r * r) * (c * c) + (r * r) * (s * s);
      (r * r) * (c * c + s * s);
    }
  }

  /** A point placed at distance `r` along an angle lies at squared distance `r^2`. */
  lemma PolarDistance(m: MathOracles, p: Point, r: real, a: real)
    requires UnitCircle(m)
    ensures SqDist(Polar(m, p, r, a), p) == r * r
  {
    var v := Point(r * m.cos(a), r * m.sin(a));
    assert Sub(Polar(m, p, r, a), p) == v;
    UnitScale(r, m.cos(a), m.sin(a));
  }

  /** A fraction of a non-negative radius stays within it. */
  lemma ShortOfRadius(radius: real, f: real)
    requires 0.0 <= radius && 0.0 <= f <= 1.0
    ensures 0.0 <= radius * f <= radius
  {
    assert radius - radius * f == radius * (1.0 - f);
  }

  /** Every candidate lies within the centre-neighbour radius. */
  lemma CandidateWithinRadius(position: Point, n: nat, need: nat, cfg: Config, rng: Rng, m: MathOracles)
    requires 0 < need && 0.0 <= cfg.centerNeighborRadius && UnitCircle(m)
    ensures WithinRadius(NeighborCandidate(position, n, need, cfg, rng, m).0, position, cfg.centerNeighborRadius)
  {
    var jitter := Range(rng, -cfg.centerNeighborJitter, cfg.centerNeighborJitter);
    var angle := 2.0 * Pi * (n as real / need as real) + jitter.0;
    var spread := Range(jitter.1, -0.12, 0.12);
    var radius := cfg.centerNeighborRadius;
    var dist := radius * (0.8 + spread.0);
    ShortOfRadius(radius, 0.8 + spread.0);
    PolarDistance(m, position, dist, angle);
    PolygonUtils.SquareMonotone(dist, radius);
  }

  /** The `tooClose` loop of `EnsureCenterNeighbors`: whether `p` keeps the
      squared distance `minSq` from every site. */
  method FarFromAll(sites: seq<Point>, p: Point, minSq: real) returns (far: bool)
    ensures far <==> forall j :: 0 <= j < |sites| ==> minSq <= SqDist(sites[j], p)
  {
    var tooClose := false;
    var j := 0;
    while j < |sites|
      invariant 0 <= j <= |sites|
      invariant forall t :: 0 <= t < j ==> minSq <= SqDist(sites[t], p)
    {
      if SqDist(sites[j], p) < minSq {
        tooClose := true;
        break;
      }
      j := j + 1;
    }
    far := !tooClose;
  }

  /** The sites after the first `n` of `need` attempts around the centre:
      attempt `t` places `NeighborCandidate` number `t` with draws `2t` and
      `2t + 1`, and appends it exactly when it lies inside the boundary and
      keeps the clearance from every site listed so far. */
  function TopUp(sites: seq<Point>, position: Point, boundary: seq<Point>, need: nat, cfg: Config,
                 rng: Rng, m: MathOracles, n: nat): (r: seq<Point>)
    requires 0 < need
    ensures |sites| <= |r| <= |sites| + n && r[..|sites|] == sites
    ensures forall j :: |sites| <= j < |r| ==> PolygonUtils.InPolygon(r[j], boundary)
    ensures forall k, j :: 0 <= k < j < |r| && |sites| <= j ==> ClearanceSq(cfg) <= SqDist(r[k], r[j])
  {
    if n == 0 then sites
    else
      var prev := TopUp(sites, position, boundary, need, cfg, rng, m, n - 1);
      var p := NeighborCandidate(position, n - 1, need, cfg, Skip(rng, 2 * (n - 1)), m).0;
      if PolygonUtils.InPolygon(p, boundary) && forall j :: 0 <= j < |prev| ==> ClearanceSq(cfg) <= SqDist(prev[j], p)
      then
        assert (prev + [p])[..|sites|] == prev[..|sites|];
        prev + [p]
      else prev
  }

  /** Every site from position `from` on lies within `radius` of `position`. */
  predicate WithinFrom(r: seq<Point>, from: nat, position: Point, radius: real)
  {
    forall j :: from <= j < |r| ==> WithinRadius(r[j], position, radius)
  }

  /** Under exact `cos`/`sin` every site the top-up appends lies within the radius. */
  lemma {:induction false} TopUpWithin(sites: seq<Point>, position: Point, boundary: seq<Point>, need: nat, cfg: Config,
                                       rng: Rng, m: MathOracles, n: nat)
    requires 0 < need && 0.0 <= cfg.centerNeighborRadius && UnitCircle(m)
    ensures WithinFrom(TopUp(sites, position, boundary, need, cfg, rng, m, n), |sites|, position, cfg.centerNeighborRadius)
  {
    hide NeighborCandidate, WithinRadius, PolygonUtils.InPolygon, SqDist, ClearanceSq, UnitCircle;
    if n > 0 {
      var prev := TopUp(sites, position, boundary, need, cfg, rng, m, n - 1);
      var p := NeighborCandidate(position, n - 1, need, cfg, Skip(rng, 2 * (n - 1)), m).0;
      var r := TopUp(sites, position, boundary, need, cfg, rng, m, n);
      assert r == prev || r == prev + [p];
      TopUpWithin(sites, position, boundary, need, cfg, rng, m, n - 1);
      CandidateWithinRadius(position, n - 1, need, cfg, Skip(rng, 2 * (n - 1)), m);
      forall j | |sites| <= j < |r|
        ensures WithinRadius(r[j], position, cfg.centerNeighborRadius)
      {
        if j < |prev| {
          assert r[j] == prev[j];
        } else {
          assert r == prev + [p] && r[j] == p;
        }
      }
    }
  }

  /** So the top-up raises the count of sites near the centre by the number
      of sites it appends. */
  lemma TopUpNear(sites: seq<Point>, position: Point, boundary: seq<Point>, need: nat, cfg: Config,
                  rng: Rng, m: MathOracles, n: nat)
    requires 0 < need && 0.0 <= cfg.centerNeighborRadius && UnitCircle(m) && 1 <= |sites|
    ensures var r := TopUp(sites, position, boundary, need, cfg, rng, m, n);
      NearCount(r, position, cfg.centerNeighborRadius, |r|) ==
        NearCount(sites, position, cfg.centerNeighborRadius, |sites|) + (|r| - |sites|)
  {
    hide TopUp, NearCount, UnitCircle, WithinRadius, SqDist, NeighborCandidate, PolygonUtils.InPolygon;
    var r := TopUp(sites, position, boundary, need, cfg, rng, m, n);
    TopUpWithin(sites, position, boundary, need, cfg, rng, m, n);
    NearCountTopUp(sites, r, position, cfg.centerNeighborRadius);
  }

  /** What `EnsureCenterNeighbors` leaves: the sites unchanged when enough
      of them are near the centre, else `TopUp` over `need` attempts, two
      draws each. */
  function CenterTopUp(sites: seq<Point>, position: Point, boundary: seq<Point>, cfg: Config, rng: Rng, m: MathOracles)
    : (res: (seq<Point>, Rng))
    ensures |sites| <= |res.0| && res.0[..|sites|] == sites && res.1.draws == rng.draws
  {
    var need := cfg.extraCenterNeighbors - NearCount(sites, position, cfg.centerNeighborRadius, |sites|);
    if need <= 0 then (sites, rng)
    else (TopUp(sites, position, boundary, need, cfg, rng, m, need), Skip(rng, 2 * need))
  }

  /** `EnsureCenterNeighbors`: when fewer than `extraCenterNeighbors` sites
      after the first lie within the radius, try `need` candidates around the
      centre and append each one that is inside the boundary and keeps its
      clearance from every site listed so far, as `TopUp` says. Existing
      sites never change; each attempt takes two draws; under exact
      `cos`/`sin` every appended site lies within the radius and raises the
      near count by one. */
  method EnsureCenterNeighbors(sites: seq<Point>, position: Point, boundary: seq<Point>, cfg: Config, rng: Rng, m: MathOracles)
    returns (result: seq<Point>, rngOut: Rng)
    ensures var near := NearCount(sites, position, cfg.centerNeighborRadius, |sites|);
      var need := cfg.extraCenterNeighbors - near;
      if need <= 0 then result == sites && rngOut == rng
      else result == TopUp(sites, position, boundary, need, cfg, rng, m, need) && rngOut == Skip(rng, 2 * need)
    ensures (result, rngOut) == CenterTopUp(sites, position, boundary, cfg, rng, m)
    ensures rngOut.draws == rng.draws
    ensures |sites| <= |result| && result[..|sites|] == sites
    ensures forall j :: |sites| <= j < |result| ==> PolygonUtils.InPolygon(result[j], boundary)
    ensures forall k, j :: 0 <= k < j < |result| && |sites| <= j ==> ClearanceSq(cfg) <= SqDist(result[k], result[j])
    ensures 0.0 <= cfg.centerNeighborRadius && UnitCircle(m) ==>
      forall j :: |sites| <= j < |result| ==> WithinRadius(result[j], position, cfg.centerNeighborRadius)
    ensures 0.0 <= cfg.centerNeighborRadius && UnitCircle(m) && 1 <= |sites| ==>
      NearCount(result, position, cfg.centerNeighborRadius, |result|) ==
        NearCount(sites, position, cfg.centerNeighborRadius, |sites|) + (|result| - |sites|)
  {
    hide NearCount, NeighborCandidate, PolygonUtils.InPolygon, SqDist, ClearanceSq, WithinRadius, UnitCircle;
    var neighbors := CountCenterNeighbors(sites, position, cfg.centerNeighborRadius);
    result, rngOut := sites, rng;
    if neighbors >= cfg.extraCenterNeighbors {
      return;
    }
    var need := cfg.extraCenterNeighbors - neighbors;
    var minSq := ClearanceSq(cfg);
    for n := 0 to need
      invariant result == TopUp(sites, position, boundary, need, cfg, rng, m, n)
      invariant rngOut == Skip(rng, 2 * n)
    {
      var candidate := NeighborCandidate(position, n, need, cfg, rngOut, m);
      var p := candidate.0;
      rngOut := candidate.1;
      var inside := PolygonUtils.IsPointInPolygon(p, boundary);
      if !inside {
        continue;
      }
      var far := FarFromAll(result, p, minSq);
      if far {
        result := result + [p];
      }
    }
    if 0.0 <= cfg.centerNeighborRadius && UnitCircle(m) {
      TopUpWithin(sites, position, boundary, need, cfg, rng, m, need);
      if 1 <= |sites| {
        TopUpNear(sites, position, boundary, need, cfg, rng, m, need);
      }
    }
  }

  /** The Poisson samples `PoissonDiskSamples` draws inside the bounds of
      the boundary, and the stream after them. */
  ghost function Samples(position: Point, boundary: seq<Point>, cfg: Config, rng: Rng, m: MathOracles)
    : (seq<Point>, Rng)
    requires 0.0 < cfg.minSiteDistance
  {
    var bounds := Bounds(boundary);
    var st := PoissonSampling.Layout(boundary, bounds.0, bounds.1, cfg.minSiteDistance, cfg.poissonAttempts, m);
    var seed := PoissonSampling.Seed(st, position, rng);
    PoissonSampling.Grow(st, cfg.maxSamples, seed.0, seed.0, seed.1)
  }

  /** The sites and protected indices handed to `ReduceSites`, and the
      stream after them: the Poisson samples inside the bounds of the
      boundary (`Grow` from `Seed`), the centre followed by the samples
      apart from it, the centre top-up, and the indices near the centre. */
  ghost function SitePipeline(position: Point, boundary: seq<Point>, cfg: Config, rng: Rng, m: MathOracles)
    : (seq<Point>, seq<int>, Rng)
    requires 0.0 < cfg.minSiteDistance
  {
    var grown := Samples(position, boundary, cfg, rng, m);
    var topped := CenterTopUp([position] + AwayFrom(grown.0, position), position, boundary, cfg, grown.1, m);
    (topped.0, NearIndices(topped.0, position, cfg.centerNeighborRadius, |topped.0|), topped.1)
  }

  /** The site half of `GenerateVoronoi`: bounds, Poisson samples, initial
      sites, centre neighbours, protected sites and reduction, in that order.
      The reduced sites start with the centre, and the stream is the one
      given. */
  method ReducedSites(position: Point, boundary: seq<Point>, cfg: Config, rng: Rng, m: MathOracles)
    returns (sites: seq<Point>, rngOut: Rng)
    requires 0.0 < cfg.minSiteDistance
    ensures var p := SitePipeline(position, boundary, cfg, rng, m);
      SiteReduction.Reduce(p.0, cfg.maxPieces, p.1) == SiteReduction.Reduced(sites) && rngOut == p.2
    ensures 1 <= |sites| && sites[0] == position
    ensures rngOut.draws == rng.draws
  {
    hide TopUp, NearCount, PoissonSampling.Grow, PoissonSampling.Seed, PoissonSampling.Clear, PoissonSampling.Layout,
      SiteReduction.Reduce, AwayFrom;
    var boundsMin, boundsMax := CalculatePolygonBounds(boundary);
    var samples, r1 := PoissonSampling.PoissonDiskSamples(position, boundary, boundsMin, boundsMax,
      cfg.minSiteDistance, cfg.poissonAttempts, cfg.maxSamples, rng, m);
    var sitesList := BuildInitialSites(position, samples);
    sitesList, rngOut := EnsureCenterNeighbors(sitesList, position, boundary, cfg, r1, m);
    assert sitesList[0] == sitesList[..1][0];
    var protectedIndices := GetProtectedIndices(sitesList, position, cfg.centerNeighborRadius);
    var reduced := SiteReduction.ReduceSites(sitesList, cfg.maxPieces, protectedIndices);
    if cfg.maxPieces < |sitesList| {
      SiteReduction.ReduceKeepsOrder(sitesList, cfg.maxPieces, protectedIndices);
    } else {
      SiteReduction.ReduceFits(sitesList, cfg.maxPieces, protectedIndices);
    }
    sites := reduced.sites;
  }

  // ---------------------------------------------------------------------------
  // Pieces
  // ---------------------------------------------------------------------------

  /** A generated `VornoiSurface`: only its polygon matters here. */
  class Piece {
    const polygon: seq<Point>

    constructor(polygon: seq<Point>)
      ensures this.polygon == polygon
    {
      this.polygon := polygon;
    }
  }

  /** One entry of `piecesBySite`: the site index and its piece. */
  datatype SitePiece = SitePiece(site: nat, piece: Piece)

  /** The keys of the entries, in insertion order. */
  function SitesOf(entries: seq<SitePiece>): (r: seq<nat>)
    ensures |r| == |entries| && forall k :: 0 <= k < |entries| ==> r[k] == entries[k].site
  {
    seq(|entries|, k requires 0 <= k < |entries| => entries[k].site)
  }

  /** The pieces of the entries, in insertion order. */
  function PiecesOf(entries: seq<SitePiece>): (r: seq<Piece>)
    ensures |r| == |entries| && forall k :: 0 <= k < |entries| ==> r[k] == entries[k].piece
  {
    seq(|entries|, k requires 0 <= k < |entries| => entries[k].piece)
  }

  /** The polygons of the pieces. */
  function Polygons(pieces: seq<Piece>): (r: seq<seq<Point>>)
    ensures |r| == |pieces| && forall k :: 0 <= k < |pieces| ==> r[k] == pieces[k].polygon
  {
    seq(|pieces|, k requires 0 <= k < |pieces| => pieces[k].polygon)
  }

  /** A clip of `count` vertices yields a piece: it is not empty, and once
      padded towards `minCorners` it has more than two vertices. */
  predicate MakesPiece(count: nat, minCorners: int) {
    0 < count && 2 < PolygonUtils.PaddedCount(count, minCorners)
  }

  /** `List.IndexOf`: the first position holding `p`, or -1. */
  function IndexOf(pieces: seq<Piece>, p: Piece?): (k: int)
    ensures -1 <= k < |pieces|
    ensures k == -1 <==> forall j :: 0 <= j < |pieces| ==> pieces[j] != p
    ensures 0 <= k ==> pieces[k] == p && forall j :: 0 <= j < k ==> pieces[j] != p
  {
    if pieces == [] then -1
    else if pieces[0] == p then 0
    else
      var k := IndexOf(pieces[1..], p);
      if k < 0 then -1 else k + 1
  }

  /** `FindCentralPiece`: the first piece, in key order, whose polygon
      contains `site`; none when no polygon does. */
  method FindCentralPiece(entries: seq<SitePiece>, site: Point) returns (central: Piece?)
    ensures central == null <==>
      forall k :: 0 <= k < |entries| ==> !PolygonUtils.InPolygon(site, entries[k].piece.polygon)
    ensures central != null ==> exists k :: (
      && 0 <= k < |entries| && central == entries[k].piece
      && PolygonUtils.InPolygon(site, central.polygon)
      && forall j :: 0 <= j < k ==> !PolygonUtils.InPolygon(site, entries[j].piece.polygon))
  {
    for k := 0 to |entries|
      invariant forall j :: 0 <= j < k ==> !PolygonUtils.InPolygon(site, entries[j].piece.polygon)
    {
      var inside := PolygonUtils.IsPointInPolygon(site, entries[k].piece.polygon);
      if inside {
        return entries[k].piece;
      }
    }
    return null;
  }

  /** The start piece of `GenerateVoronoi`: the central piece, else the piece
      of site 0 if there is one, else none. */
  method StartPiece(entries: seq<SitePiece>, site: Point) returns (central: Piece?)
    ensures (exists k :: 0 <= k < |entries| && PolygonUtils.InPolygon(site, entries[k].piece.polygon)) ==>
      central != null && PolygonUtils.InPolygon(site, central.polygon) &&
      exists k :: 0 <= k < |entries| && central == entries[k].piece &&
        forall j :: 0 <= j < k ==> !PolygonUtils.InPolygon(site, entries[j].piece.polygon)
    ensures (forall k :: 0 <= k < |entries| ==> !PolygonUtils.InPolygon(site, entries[k].piece.polygon)) ==>
      if 0 in SitesOf(entries) then exists k :: 0 <= k < |entries| && entries[k].site == 0 && central == entries[k].piece
      else central == null
  {
    central := FindCentralPiece(entries, site);
    if central == null && 0 in SitesOf(entries) {
      var k :| 0 <= k < |entries| && entries[k].site == 0;
      central := entries[k].piece;
    }
  }

  /** The shaping step of `CreatePiecesFromSites`: shrink the clipped cell
      by `gap`, then pad it when it has some but fewer than `minCorners`
      vertices. Without padding each vertex has moved as the inset promises. */
  method InsetAndPad(clipped: seq<Point>, gap: real, minCorners: int, rng: Rng, m: MathOracles)
    returns (inset: seq<Point>, rngOut: Rng)
    requires IsSqrt(m.sqrt)
    ensures |inset| == PolygonUtils.PaddedCount(|clipped|, minCorners)
    ensures minCorners <= |clipped| ==> forall t :: 0 <= t < |clipped| ==>
      PolygonUtils.InsetMoves(clipped[t], inset[t], PolygonUtils.Centroid(clipped), gap)
    ensures rngOut.draws == rng.draws
  {
    inset := PolygonUtils.ShrinkPolygonTowardsCenter(clipped, gap, m);
    rngOut := rng;
    if |inset| > 0 && |inset| < minCorners {
      inset, rngOut := PolygonUtils.EnsureMinVertices(inset, minCorners, rngOut);
    }
  }

  class MapGenerator {
    const config: Config
    /** `_generatedPieces`. */
    var generatedPieces: seq<Piece>

    constructor(config: Config)
      ensures this.config == config && generatedPieces == []
    {
      this.config := config;
      generatedPieces := [];
    }

    /** `ClearGeneratedPieces`: every generated piece is dropped. */
    method ClearGeneratedPieces()
      modifies this
      ensures generatedPieces == []
    {
      generatedPieces := [];
    }

    /** `CreatePiecesFromSites`: for each site, in order, shrink its clipped
        cell by `gap`, pad it towards `minPolygonCorners` vertices when it has
        fewer, and keep it as a new piece keyed by the site when it is not
        empty and ends with more than two vertices. `clips[i]` is what the
        Voronoi clipper returns for site `i`. */
    method CreatePiecesFromSites(clips: seq<seq<Point>>, gap: real, rng: Rng, m: MathOracles)
      returns (entries: seq<SitePiece>, rngOut: Rng)
      requires IsSqrt(m.sqrt)
      modifies this
      ensures generatedPieces == old(generatedPieces) + PiecesOf(entries)
      ensures forall k :: 0 <= k < |entries| ==> fresh(entries[k].piece)
      ensures forall s, t :: 0 <= s < t < |entries| ==> entries[s].site < entries[t].site
      ensures forall i :: 0 <= i < |clips| ==> (i in SitesOf(entries) <==> MakesPiece(|clips[i]|, config.minPolygonCorners))
      ensures forall k :: 0 <= k < |entries| ==> (
        && entries[k].site < |clips|
        && |entries[k].piece.polygon| == PolygonUtils.PaddedCount(|clips[entries[k].site]|, config.minPolygonCorners)
        && 2 < |entries[k].piece.polygon|)
      ensures rngOut.draws == rng.draws
    {
      entries, rngOut := [], rng;
      for i := 0 to |clips|
        invariant generatedPieces == old(generatedPieces) + PiecesOf(entries)
        invariant forall k :: 0 <= k < |entries| ==> fresh(entries[k].piece)
        invariant forall s, t :: 0 <= s < t < |entries| ==> entries[s].site < entries[t].site
        invariant forall k :: 0 <= k < |entries| ==> (
          && entries[k].site < i
          && |entries[k].piece.polygon| == PolygonUtils.PaddedCount(|clips[entries[k].site]|, config.minPolygonCorners)
          && 2 < |entries[k].piece.polygon|)
        invariant forall j :: 0 <= j < i ==> (j in SitesOf(entries) <==> MakesPiece(|clips[j]|, config.minPolygonCorners))
        invariant rngOut.draws == rng.draws
      {
        var clipped := clips[i];
        if |clipped| == 0 {
          continue;
        }
        var inset;
        inset, rngOut := InsetAndPad(clipped, gap, config.minPolygonCorners, rngOut, m);
        if |inset| <= 2 {
          continue;
        }
        var piece := new Piece(inset);
        generatedPieces := generatedPieces + [piece];
        assert SitesOf(entries + [SitePiece(i, piece)]) == SitesOf(entries) + [i];
        entries := entries + [SitePiece(i, piece)];
      }
    }

    /** `CreateCellConnections`: one new locked cell per generated piece, in
        order, linked by `CellGraphBuilder.Build` with tolerance `2 gap`; the
        start cell is the cell of the first occurrence of `centralPiece`,
        else the first cell, else none. */
    method CreateCellConnections(centralPiece: Piece?) returns (models: seq<CellModel>, startCell: CellModel?)
      ensures |models| == |generatedPieces| && Distinct(models)
      ensures forall x :: 0 <= x < |models| ==> fresh(models[x]) && models[x].state == Locked
      ensures forall x :: 0 <= x < |models| ==>
        models[x].neighbors == CellGraphBuilder.Links(models, Polygons(generatedPieces), config.gap * 2.0, x, |models|)
      ensures forall x, c :: 0 <= x < |models| && c in models[x].neighbors ==> c in models
      ensures var k := IndexOf(generatedPieces, centralPiece);
        startCell == if 0 <= k then models[k] else if 0 < |models| then models[0] else null
    {
      models := [];
      for x := 0 to |generatedPieces|
        invariant |models| == x && Distinct(models)
        invariant forall t :: 0 <= t < x ==> fresh(models[t]) && models[t].state == Locked && models[t].neighbors == []
      {
        var model := new CellModel();
        models := models + [model];
      }
      CellGraphBuilder.Build(models, Polygons(generatedPieces), config.gap * 2.0);
      forall x | 0 <= x < |models| {
        CellGraphBuilder.LinksAreModels(models, Polygons(generatedPieces), config.gap * 2.0, x, |models|);
      }
      var startIndex := IndexOf(generatedPieces, centralPiece);
      startCell := if startIndex >= 0 then models[startIndex] else if |models| > 0 then models[0] else null;
    }

    /** `GenerateVoronoi`: bounds, samples, initial sites, centre neighbours,
        protected sites, reduction, pieces, start piece and cell graph, in
        that order. `clip(sites, i)` stands for the Voronoi calculator and
        clipper: the cell of site `i` in the diagram of `sites`, clipped to
        the boundary. The new pieces are appended to the generated ones;
        there is one cell per generated piece; there is a start cell exactly
        when there is a cell. */
    method GenerateVoronoi(position: Point, boundary: seq<Point>, clip: (seq<Point>, nat) -> seq<Point>,
                           gap: real, rng: Rng, m: MathOracles)
      returns (models: seq<CellModel>, startCell: CellModel?, rngOut: Rng)
      requires 0.0 < config.minSiteDistance && IsSqrt(m.sqrt)
      modifies this
      ensures |old(generatedPieces)| <= |generatedPieces|
      ensures generatedPieces[..|old(generatedPieces)|] == old(generatedPieces)
      ensures forall k :: |old(generatedPieces)| <= k < |generatedPieces| ==>
        fresh(generatedPieces[k]) && 3 <= |generatedPieces[k].polygon|
      ensures |models| == |generatedPieces| && Distinct(models)
      ensures forall x :: 0 <= x < |models| ==> fresh(models[x]) && models[x].state == Locked
      ensures forall x :: 0 <= x < |models| ==>
        models[x].neighbors == CellGraphBuilder.Links(models, Polygons(generatedPieces), config.gap * 2.0, x, |models|)
      ensures forall x, c :: 0 <= x < |models| && c in models[x].neighbors ==> c in models
      ensures startCell == null <==> |models| == 0
      ensures startCell != null ==> startCell in models
      ensures rngOut.draws == rng.draws
    {
      hide SitePipeline, Samples, CenterTopUp, NearIndices, SiteReduction.Reduce, Bounds, TopUp, AwayFrom;
      var sites, r2 := ReducedSites(position, boundary, config, rng, m);
      var clips := seq(|sites|, i requires 0 <= i => clip(sites, i));
      var entries;
      entries, rngOut := CreatePiecesFromSites(clips, gap, r2, m);
      var central := StartPiece(entries, sites[0]);
      models, startCell := CreateCellConnections(central);
    }

    /** `GenerateMap`: drop the pieces of the previous map, seed the
        generator (`seeded` is the stream for the seed) and generate with the
        configured gap. Afterwards the generated pieces are exactly the new
        ones, one cell each. */
    method GenerateMap(position: Point, boundary: seq<Point>, clip: (seq<Point>, nat) -> seq<Point>,
                       seeded: Rng, m: MathOracles)
      returns (models: seq<CellModel>, startCell: CellModel?, rngOut: Rng)
      requires 0.0 < config.minSiteDistance && IsSqrt(m.sqrt)
      modifies this
      ensures forall k :: 0 <= k < |generatedPieces| ==> fresh(generatedPieces[k]) && 3 <= |generatedPieces[k].polygon|
      ensures |models| == |generatedPieces| && Distinct(models)
      ensures forall x :: 0 <= x < |models| ==> fresh(models[x]) && models[x].state == Locked
      ensures forall x :: 0 <= x < |models| ==>
        models[x].neighbors == CellGraphBuilder.Links(models, Polygons(generatedPieces), config.gap * 2.0, x, |models|)
      ensures forall x, c :: 0 <= x < |models| && c in models[x].neighbors ==> c in models
      ensures startCell == null <==> |models| == 0
      ensures startCell != null ==> startCell in models
      ensures rngOut.draws == seeded.draws
    {
      ClearGeneratedPieces();
      models, startCell, rngOut := GenerateVoronoi(position, boundary, clip, config.gap, seeded, m);
    }
  }
}
