/** `VornoiUtils.PoissonDiskSamples`: Bridson-style sampling inside a polygon
    with a background grid of cell size `minDist / sqrt 2`. Each grid cell
    remembers the last sample placed in it, and a candidate is accepted when
    no sample remembered within two cells of its own is closer than `minDist`.

    The specification functions below (`Seed`, `FirstAccepted`, `Grow`) say
    which draws the sampler takes and which candidate it keeps; the methods
    are proved to compute exactly those. */
module PoissonSampling {
  import opened Geometry
  import opened UnityRandom
  import PolygonUtils

  /** `Mathf.CeilToInt`. */
  function Ceil(x: real): int { -((-x).Floor) }

  /** The `(int)` cast of a float: truncation toward zero. */
  function Truncate(x: real): int { if x >= 0.0 then x.Floor else -((-x).Floor) }

  /** `Mathf.Clamp` on integers. */
  function Clamp(v: int, lo: int, hi: int): int { if v < lo then lo else if v > hi then hi else v }

  /** `Mathf.Max` and `Mathf.Min` on integers. */
  function MaxInt(a: int, b: int): int { if a >= b then a else b }

  function MinInt(a: int, b: int): int { if a <= b then a else b }

  /** The grid column (or row) of coordinate `x`: `(x - lo) / cellSize`
      truncated and clamped into `0 .. n - 1`. */
  function Cell(x: real, lo: real, cellSize: real, n: int): (c: int)
    requires 1 <= n && 0.0 < cellSize
    ensures 0 <= c < n
  {
    Clamp(Truncate((x - lo) / cellSize), 0, n - 1)
  }

  /** The grid size along one axis: `Max(1, CeilToInt(extent / cellSize))`. */
  function GridSize(extent: real, cellSize: real): (n: int)
    requires 0.0 < cellSize
    ensures 1 <= n
  {
    MaxInt(1, Ceil(extent / cellSize))
  }

  /** `p` lies in the box `[lo, hi]` on both axes. */
  predicate InBox(p: Point, lo: Point, hi: Point)
  {
    lo.x <= p.x <= hi.x && lo.y <= p.y <= hi.y
  }

  /** What stays fixed during one run of the sampler: the polygon, the
      bounds, the spacing, the grid's cell size and shape, the number of
      attempts `k` and the trigonometric oracles. */
  datatype Setting = Setting(polygon: seq<Point>, lo: Point, hi: Point, minDist: real,
                             cellSize: real, cols: int, rows: int, k: int, m: MathOracles)
  {
    predicate Valid() { 1 <= cols && 1 <= rows && 0.0 < cellSize }

    /** `p` falls into grid cell `(gx, gy)`. */
    predicate InCell(p: Point, gx: int, gy: int)
      requires Valid()
    {
      Cell(p.x, lo.x, cellSize, cols) == gx && Cell(p.y, lo.y, cellSize, rows) == gy
    }
  }

  /** The setting `PoissonDiskSamples` derives from its arguments. */
  function Layout(polygon: seq<Point>, lo: Point, hi: Point, minDist: real, k: int, m: MathOracles): (st: Setting)
    requires 0.0 < minDist
    ensures st.Valid() && st.polygon == polygon && st.lo == lo && st.hi == hi && st.minDist == minDist
    ensures st.cellSize == minDist / Sqrt2 && st.k == k && st.m == m
    ensures st.cols == GridSize(hi.x - lo.x, st.cellSize) && st.rows == GridSize(hi.y - lo.y, st.cellSize)
  {
    var cellSize := minDist / Sqrt2;
    Setting(polygon, lo, hi, minDist, cellSize, GridSize(hi.x - lo.x, cellSize), GridSize(hi.y - lo.y, cellSize), k, m)
  }

  /** The grid entry of cell `(gx, gy)` once `samples` have been placed: the
      index of the newest sample in that cell, or `-1` when there is none. */
  function Newest(st: Setting, samples: seq<Point>, gx: int, gy: int): (s: int)
    requires st.Valid()
    ensures -1 <= s < |samples|
    ensures 0 <= s ==> st.InCell(samples[s], gx, gy)
    ensures forall t :: s < t < |samples| ==> !st.InCell(samples[t], gx, gy)
  {
    if samples == [] then -1
    else if st.InCell(samples[|samples| - 1], gx, gy) then |samples| - 1
    else Newest(st, samples[..|samples| - 1], gx, gy)
  }

  /** The grid holds, in every cell, the newest sample placed in it. */
  ghost predicate GridRecords(grid: array2<int>, samples: seq<Point>, st: Setting)
    reads grid
  {
    && st.Valid() && grid.Length0 == st.cols && grid.Length1 == st.rows
    && forall gx, gy :: 0 <= gx < grid.Length0 && 0 <= gy < grid.Length1 ==>
         grid[gx, gy] == Newest(st, samples, gx, gy)
  }

  /** The cells at most `2` away from `(gcx, gcy)` that lie on the grid. */
  predicate InWindow(gx: int, gy: int, gcx: int, gcy: int, cols: int, rows: int)
  {
    MaxInt(0, gcx - 2) <= gx <= MinInt(cols - 1, gcx + 2) &&
    MaxInt(0, gcy - 2) <= gy <= MinInt(rows - 1, gcy + 2)
  }

  /** No sample remembered in the window around the cell of `cand` is closer
      to `cand` than `minDist`. */
  ghost predicate Clear(st: Setting, samples: seq<Point>, cand: Point)
    requires st.Valid()
  {
    var gcx := Cell(cand.x, st.lo.x, st.cellSize, st.cols);
    var gcy := Cell(cand.y, st.lo.y, st.cellSize, st.rows);
    forall gx, gy :: InWindow(gx, gy, gcx, gcy, st.cols, st.rows) ==>
      var s := Newest(st, samples, gx, gy);
      0 <= s ==> st.minDist * st.minDist <= SqDist(samples[s], cand)
  }

  /** A candidate the sampler keeps: in the bounds, in the polygon and clear. */
  ghost predicate Accepted(st: Setting, samples: seq<Point>, cand: Point)
    requires st.Valid()
  {
    InBox(cand, st.lo, st.hi) && PolygonUtils.InPolygon(cand, st.polygon) && Clear(st, samples, cand)
  }

  // ---------------------------------------------------------------------------
  // The first sample
  // ---------------------------------------------------------------------------

  /** Try `i` of the first sample: an `x` draw then a `y` draw in the bounds. */
  function SeedDraw(st: Setting, rng: Rng, i: nat): Point
  {
    Point(Range(Skip(rng, 2 * i), st.lo.x, st.hi.x).0, Range(Skip(rng, 2 * i + 1), st.lo.y, st.hi.y).0)
  }

  /** The first try from `i` on whose draw lands in the polygon, or
      `max(i, k)` when none of the tries below `k` does. */
  function FirstInside(st: Setting, rng: Rng, i: nat): (r: nat)
    decreases st.k - i
    ensures i <= r
    ensures r < st.k ==> PolygonUtils.InPolygon(SeedDraw(st, rng, r), st.polygon)
    ensures st.k <= r ==> r == MaxInt(i, st.k)
    ensures forall j :: i <= j < r ==> !PolygonUtils.InPolygon(SeedDraw(st, rng, j), st.polygon)
  {
    if st.k <= i then i
    else if PolygonUtils.InPolygon(SeedDraw(st, rng, i), st.polygon) then i
    else FirstInside(st, rng, i + 1)
  }

  /** The samples and the stream after the first sample is chosen: the
      centre when the polygon holds it (no draws), otherwise the first of `k`
      tries that lands inside (two draws per try), or none. */
  function Seed(st: Setting, center: Point, rng: Rng): (res: (seq<Point>, Rng))
  {
    if PolygonUtils.InPolygon(center, st.polygon) then ([center], rng)
    else
      var r := FirstInside(st, rng, 0);
      if r < st.k then ([SeedDraw(st, rng, r)], Skip(rng, 2 * r + 2)) else ([], Skip(rng, 2 * r))
  }

  /** What the first sample is: the centre when the polygon holds it;
      otherwise there is a sample exactly when one of the `k` tries lands in
      the polygon, and it lies in the bounds. */
  lemma SeedChoice(st: Setting, center: Point, rng: Rng)
    ensures var res := Seed(st, center, rng);
      && |res.0| <= 1 && res.1.draws == rng.draws
      && (forall i :: 0 <= i < |res.0| ==> PolygonUtils.InPolygon(res.0[i], st.polygon))
      && (PolygonUtils.InPolygon(center, st.polygon) ==> res.0 == [center])
      && (!PolygonUtils.InPolygon(center, st.polygon) ==>
            (|res.0| == 1 <==> exists i :: 0 <= i < st.k && PolygonUtils.InPolygon(SeedDraw(st, rng, i), st.polygon)))
      && (!PolygonUtils.InPolygon(center, st.polygon) && st.lo.x <= st.hi.x && st.lo.y <= st.hi.y ==>
            forall i :: 0 <= i < |res.0| ==> InBox(res.0[i], st.lo, st.hi))
  {
    var r := FirstInside(st, rng, 0);
    if !PolygonUtils.InPolygon(center, st.polygon) && r < st.k {
      assert PolygonUtils.InPolygon(SeedDraw(st, rng, r), st.polygon);
    }
  }

  // ---------------------------------------------------------------------------
  // One pass around an active sample
  // ---------------------------------------------------------------------------

  /** Candidate `i` of a pass around `point`: a radius in `[minDist, 2 minDist]`
      and an angle in `[0, 2 pi]`, the pass's draws `2i` and `2i + 1`. */
  function Candidate(st: Setting, point: Point, rng: Rng, i: nat): Point
  {
    var radius := Range(Skip(rng, 2 * i), st.minDist, 2.0 * st.minDist);
    var angle := Range(radius.1, 0.0, Pi * 2.0);
    Polar(st.m, point, radius.0, angle.0)
  }

  /** The first candidate from `i` on that is accepted, or `max(i, k)` when
      none below `k` is. */
  ghost function FirstAccepted(st: Setting, samples: seq<Point>, point: Point, rng: Rng, i: nat): (r: nat)
    requires st.Valid()
    decreases st.k - i
    ensures i <= r
    ensures r < st.k ==> Accepted(st, samples, Candidate(st, point, rng, r))
    ensures st.k <= r ==> r == MaxInt(i, st.k)
    ensures forall j :: i <= j < r ==> !Accepted(st, samples, Candidate(st, point, rng, j))
  {
    if st.k <= i then i
    else if Accepted(st, samples, Candidate(st, point, rng, i)) then i
    else FirstAccepted(st, samples, point, rng, i + 1)
  }

  /** Candidate `i` is the first candidate of the stream `2i` draws on. */
  lemma CandidateFrom(st: Setting, point: Point, rng: Rng, i: nat)
    ensures Candidate(st, point, Skip(rng, 2 * i), 0) == Candidate(st, point, rng, i)
  {
  }

  /** A pass finds a candidate exactly when one of its `k` candidates is accepted. */
  lemma SomeAccepted(st: Setting, samples: seq<Point>, point: Point, rng: Rng)
    requires st.Valid()
    ensures var r := FirstAccepted(st, samples, point, rng, 0);
      r < st.k <==> exists i :: 0 <= i < st.k && Accepted(st, samples, Candidate(st, point, rng, i))
  {
    var r := FirstAccepted(st, samples, point, rng, 0);
    if r < st.k {
      assert Accepted(st, samples, Candidate(st, point, rng, r));
    }
  }

  // ---------------------------------------------------------------------------
  // The main loop
  // ---------------------------------------------------------------------------

  /** The main loop from the state `(samples, active, rng)`: while there is an
      active sample and room for more, pick an active sample with one draw
      and run a pass around it; the first accepted candidate becomes a sample
      and an active one, and when there is none the picked sample retires. */
  ghost function Grow(st: Setting, maxSamples: int, samples: seq<Point>, active: seq<Point>, rng: Rng): (res: (seq<Point>, Rng))
    requires st.Valid()
    decreases maxSamples - |samples|, |active|
    ensures res.1.draws == rng.draws
  {
    if |active| == 0 || maxSamples <= |samples| then (samples, rng)
    else
      var pick := RangeInt(rng, 0, |active|);
      var point := active[pick.0];
      var r := FirstAccepted(st, samples, point, pick.1, 0);
      if r < st.k then
        var cand := Candidate(st, point, pick.1, r);
        Grow(st, maxSamples, samples + [cand], active + [cand], Skip(pick.1, 2 * r + 2))
      else
        Grow(st, maxSamples, samples, active[..pick.0] + active[pick.0 + 1..], Skip(pick.1, 2 * r))
  }

  /** The main loop only appends, never beyond `max(maxSamples, |samples|)`,
      and every sample it appends is accepted against the samples before it. */
  lemma {:induction false} GrowAppendsAccepted(st: Setting, maxSamples: int, samples: seq<Point>, active: seq<Point>, rng: Rng)
    requires st.Valid()
    decreases maxSamples - |samples|, |active|
    ensures var res := Grow(st, maxSamples, samples, active, rng);
      && |samples| <= |res.0| <= MaxInt(maxSamples, |samples|) && res.0[..|samples|] == samples
      && forall i :: |samples| <= i < |res.0| ==> Accepted(st, res.0[..i], res.0[i])
  {
    hide Accepted, FirstAccepted, Candidate, PolygonUtils.InPolygon;
    if |active| == 0 || maxSamples <= |samples| {
      return;
    }
    var pick := RangeInt(rng, 0, |active|);
    var point := active[pick.0];
    var r := FirstAccepted(st, samples, point, pick.1, 0);
    if r < st.k {
      var cand := Candidate(st, point, pick.1, r);
      var next := samples + [cand];
      GrowAppendsAccepted(st, maxSamples, next, active + [cand], Skip(pick.1, 2 * r + 2));
      var res := Grow(st, maxSamples, next, active + [cand], Skip(pick.1, 2 * r + 2));
      assert Grow(st, maxSamples, samples, active, rng) == res;
      assert res.0[..|next|][..|samples|] == res.0[..|samples|];
      assert res.0[..|samples|] == samples && res.0[|samples|] == cand;
    } else {
      GrowAppendsAccepted(st, maxSamples, samples, active[..pick.0] + active[pick.0 + 1..], Skip(pick.1, 2 * r));
    }
  }

  // ---------------------------------------------------------------------------
  // The methods
  // ---------------------------------------------------------------------------

  /** The grid allocation and its `-1` fill. */
  method NewGrid(cols: int, rows: int) returns (grid: array2<int>)
    requires 1 <= cols && 1 <= rows
    ensures fresh(grid) && grid.Length0 == cols && grid.Length1 == rows
    ensures forall gx, gy :: 0 <= gx < cols && 0 <= gy < rows ==> grid[gx, gy] == -1
  {
    grid := new int[cols, rows];
    for gx := 0 to cols
      invariant forall x, y :: 0 <= x < gx && 0 <= y < rows ==> grid[x, y] == -1
    {
      for gy := 0 to rows
        invariant forall x, y :: 0 <= x < gx && 0 <= y < rows ==> grid[x, y] == -1
        invariant forall y :: 0 <= y < gy ==> grid[gx, y] == -1
      {
        grid[gx, gy] := -1;
      }
    }
  }

  /** No sample the grid holds in the window around `(gcx, gcy)` is closer
      to `cand` than `minDist`. */
  ghost predicate WindowClear(grid: array2<int>, samples: seq<Point>, cand: Point, gcx: int, gcy: int, minDist: real)
    reads grid
  {
    forall gx, gy :: InWindow(gx, gy, gcx, gcy, grid.Length0, grid.Length1) ==>
      0 <= gx < grid.Length0 && 0 <= gy < grid.Length1 &&
      (0 <= grid[gx, gy] < |samples| ==> minDist * minDist <= SqDist(samples[grid[gx, gy]], cand))
  }

  /** Every entry of such a grid is `-1` or the index of a sample. */
  lemma GridEntries(grid: array2<int>, samples: seq<Point>, st: Setting)
    requires GridRecords(grid, samples, st)
    ensures forall gx, gy :: 0 <= gx < grid.Length0 && 0 <= gy < grid.Length1 ==>
      grid[gx, gy] == -1 || 0 <= grid[gx, gy] < |samples|
  {
  }

  /** Read through a grid that records the newest samples, the window check
      is `Clear`. */
  lemma WindowClearIsClear(grid: array2<int>, samples: seq<Point>, cand: Point, st: Setting)
    requires GridRecords(grid, samples, st)
    ensures var gcx := Cell(cand.x, st.lo.x, st.cellSize, st.cols);
      var gcy := Cell(cand.y, st.lo.y, st.cellSize, st.rows);
      WindowClear(grid, samples, cand, gcx, gcy, st.minDist) <==> Clear(st, samples, cand)
  {
  }

  /** The neighbourhood check: `ok` exactly when the window around the
      candidate's cell holds no sample closer than `minDist`. */
  method CandidateClear(grid: array2<int>, samples: seq<Point>, cand: Point, gcx: int, gcy: int, minDist: real)
    returns (ok: bool)
    requires forall gx, gy :: 0 <= gx < grid.Length0 && 0 <= gy < grid.Length1 ==>
      grid[gx, gy] == -1 || 0 <= grid[gx, gy] < |samples|
    ensures ok <==> WindowClear(grid, samples, cand, gcx, gcy, minDist)
  {
    ok := true;
    ghost var badX, badY := 0, 0;
    var gx := MaxInt(0, gcx - 2);
    while gx <= MinInt(grid.Length0 - 1, gcx + 2) && ok
      invariant 0 <= gx
      invariant ok ==> forall x, y :: InWindow(x, y, gcx, gcy, grid.Length0, grid.Length1) && x < gx ==>
        0 <= grid[x, y] < |samples| ==> minDist * minDist <= SqDist(samples[grid[x, y]], cand)
      invariant !ok ==> (InWindow(badX, badY, gcx, gcy, grid.Length0, grid.Length1) &&
        0 <= grid[badX, badY] < |samples| && SqDist(samples[grid[badX, badY]], cand) < minDist * minDist)
      decreases grid.Length0 - gx, ok
    {
      var gy := MaxInt(0, gcy - 2);
      while gy <= MinInt(grid.Length1 - 1, gcy + 2)
        invariant 0 <= gy
        invariant ok
        invariant forall y :: MaxInt(0, gcy - 2) <= y < gy && y <= MinInt(grid.Length1 - 1, gcy + 2) ==>
          0 <= grid[gx, y] < |samples| ==> minDist * minDist <= SqDist(samples[grid[gx, y]], cand)
        decreases grid.Length1 - gy
      {
        var sidx := grid[gx, gy];
        if sidx != -1 {
          var s := samples[sidx];
          if SqDist(s, cand) < minDist * minDist {
            ok := false;
            badX, badY := gx, gy;
            break;
          }
        }
        gy := gy + 1;
      }
      gx := gx + 1;
    }
  }

  /** `grid[gcx, gcy] = samples.Count - 1`: the newest sample is remembered in its cell. */
  method Remember(grid: array2<int>, st: Setting, samples: seq<Point>)
    requires 1 <= |samples| && GridRecords(grid, samples[..|samples| - 1], st)
    modifies grid
    ensures GridRecords(grid, samples, st)
  {
    var s := |samples| - 1;
    var gcx := Cell(samples[s].x, st.lo.x, st.cellSize, st.cols);
    var gcy := Cell(samples[s].y, st.lo.y, st.cellSize, st.rows);
    grid[gcx, gcy] := s;
  }

  /** The first sample: the centre when it is inside the polygon, otherwise
      the first of at most `k` uniform draws in the bounds that lands inside.
      It is remembered as sample `0` in its cell. */
  method SeedSample(grid: array2<int>, center: Point, st: Setting, rng: Rng)
    returns (samples: seq<Point>, rngOut: Rng)
    requires GridRecords(grid, [], st)
    modifies grid
    ensures (samples, rngOut) == Seed(st, center, rng)
    ensures GridRecords(grid, samples, st)
  {
    hide Newest, GridRecords, PolygonUtils.InPolygon, Range;
    samples := [];
    rngOut := rng;
    var centerInside := PolygonUtils.IsPointInPolygon(center, st.polygon);
    if centerInside {
      samples := [center];
      Remember(grid, st, samples);
    }
    if |samples| == 0 {
      var attempts := 0;
      while attempts < st.k && |samples| == 0
        invariant 0 <= attempts && (attempts <= st.k || attempts == 0)
        invariant !centerInside && |samples| <= 1 && GridRecords(grid, samples, st)
        invariant rngOut == Skip(rng, 2 * attempts)
        invariant |samples| == 0 ==> FirstInside(st, rng, 0) == FirstInside(st, rng, attempts)
        invariant |samples| == 1 ==>
          1 <= attempts && FirstInside(st, rng, 0) == attempts - 1 && samples == [SeedDraw(st, rng, attempts - 1)]
        decreases st.k - attempts
      {
        var rx := Range(rngOut, st.lo.x, st.hi.x);
        var ry := Range(rx.1, st.lo.y, st.hi.y);
        rngOut := ry.1;
        var p := Point(rx.0, ry.0);
        assert p == SeedDraw(st, rng, attempts);
        var inside := PolygonUtils.IsPointInPolygon(p, st.polygon);
        if inside {
          samples := [p];
          Remember(grid, st, samples);
        }
        attempts := attempts + 1;
      }
    }
  }

  /** One attempt of a pass: draw a radius and an angle from `cur`, place
      the candidate, and check the bounds, the polygon and the grid
      neighbourhood in that order. */
  method TryCandidate(grid: array2<int>, samples: seq<Point>, point: Point, st: Setting, cur: Rng)
    returns (accepted: bool, c: Point, next: Rng)
    requires GridRecords(grid, samples, st)
    ensures c == Candidate(st, point, cur, 0) && next == Skip(cur, 2)
    ensures accepted <==> Accepted(st, samples, c)
  {
    assert st.Valid();
    hide Newest, GridRecords, Clear, WindowClear, PolygonUtils.InPolygon;
    var radius := Range(cur, st.minDist, 2.0 * st.minDist);
    var angle := Range(radius.1, 0.0, Pi * 2.0);
    next := angle.1;
    c := Polar(st.m, point, radius.0, angle.0);
    accepted := false;
    if c.x < st.lo.x || c.x > st.hi.x || c.y < st.lo.y || c.y > st.hi.y {
      return;
    }
    var inside := PolygonUtils.IsPointInPolygon(c, st.polygon);
    if !inside {
      return;
    }
    var gcx := Cell(c.x, st.lo.x, st.cellSize, st.cols);
    var gcy := Cell(c.y, st.lo.y, st.cellSize, st.rows);
    GridEntries(grid, samples, st);
    accepted := CandidateClear(grid, samples, c, gcx, gcy, st.minDist);
    WindowClearIsClear(grid, samples, c, st);
  }

  /** The attempts loop of one pass: up to `k` candidates at distance
      `[minDist, 2 minDist]` in a random direction around `point`; the first
      one in the bounds, in the polygon and clear of its grid neighbourhood is
      returned, after the draws of the candidates tried. */
  method TryAround(grid: array2<int>, samples: seq<Point>, point: Point, st: Setting, rng: Rng)
    returns (found: bool, cand: Point, rngOut: Rng)
    requires GridRecords(grid, samples, st)
    ensures var r := FirstAccepted(st, samples, point, rng, 0);
      && (found <==> r < st.k)
      && (found ==> cand == Candidate(st, point, rng, r) && rngOut == Skip(rng, 2 * r + 2))
      && (!found ==> rngOut == Skip(rng, 2 * r))
    ensures found <==> exists i :: 0 <= i < st.k && Accepted(st, samples, Candidate(st, point, rng, i))
    ensures found ==> Accepted(st, samples, cand)
  {
    assert st.Valid();
    hide GridRecords, Accepted, Candidate;
    found, cand, rngOut := false, point, rng;
    var i := 0;
    while i < st.k
      invariant 0 <= i && (i <= st.k || i == 0)
      invariant rngOut == Skip(rng, 2 * i)
      invariant FirstAccepted(st, samples, point, rng, 0) == FirstAccepted(st, samples, point, rng, i)
      decreases st.k - i
    {
      var accepted, c;
      accepted, c, rngOut := TryCandidate(grid, samples, point, st, rngOut);
      CandidateFrom(st, point, rng, i);
      i := i + 1;
      if accepted {
        SomeAccepted(st, samples, point, rng);
        return true, c, rngOut;
      }
    }
    SomeAccepted(st, samples, point, rng);
  }

  /** `VornoiUtils.PoissonDiskSamples`: the first sample as `Seed` chooses
      it, then the main loop as `Grow` runs it. So every sample after the
      seed lies in the bounds and the polygon and is clear of the samples the
      grid remembers before it; the centre comes first when the polygon holds
      it; at most `max(maxSamples, 1)` samples are produced. */
  method PoissonDiskSamples(center: Point, polygon: seq<Point>, boundsMin: Point, boundsMax: Point,
                            minDist: real, k: int, maxSamples: int, rng: Rng, m: MathOracles)
    returns (samples: seq<Point>, rngOut: Rng)
    requires 0.0 < minDist
    ensures var st := Layout(polygon, boundsMin, boundsMax, minDist, k, m);
      var seed := Seed(st, center, rng);
      (samples, rngOut) == Grow(st, maxSamples, seed.0, seed.0, seed.1)
    ensures |samples| <= MaxInt(maxSamples, 1)
    ensures forall i :: 0 <= i < |samples| ==> PolygonUtils.InPolygon(samples[i], polygon)
    ensures forall i :: 1 <= i < |samples| ==> InBox(samples[i], boundsMin, boundsMax)
    ensures forall i :: 1 <= i < |samples| ==>
      Clear(Layout(polygon, boundsMin, boundsMax, minDist, k, m), samples[..i], samples[i])
    ensures PolygonUtils.InPolygon(center, polygon) ==> 1 <= |samples| && samples[0] == center
    ensures !PolygonUtils.InPolygon(center, polygon) && boundsMin.x <= boundsMax.x && boundsMin.y <= boundsMax.y ==>
      forall i :: 0 <= i < |samples| ==> InBox(samples[i], boundsMin, boundsMax)
    ensures rngOut.draws == rng.draws
  {
    hide Grow, Seed, Newest, Clear, Accepted, FirstAccepted, FirstInside, PolygonUtils.InPolygon;
    var st := Layout(polygon, boundsMin, boundsMax, minDist, k, m);
    var grid := NewGrid(st.cols, st.rows);
    samples, rngOut := SeedSample(grid, center, st, rng);
    SeedChoice(st, center, rng);
    ghost var seed, seedRng := samples, rngOut;
    var active := samples;
    while |active| > 0 && |samples| < maxSamples
      invariant GridRecords(grid, samples, st)
      invariant Grow(st, maxSamples, samples, active, rngOut) == Grow(st, maxSamples, seed, seed, seedRng)
      decreases maxSamples - |samples|, |active|
    {
      samples, active, rngOut := Pass(grid, st, maxSamples, samples, active, rngOut);
    }
    GrowDone(st, maxSamples, samples, active, rngOut);
    GrowFromSeed(st, maxSamples, seed, seedRng, samples, center);
  }

  /** One pass of the main loop: pick an active sample and try around it;
      a candidate found becomes a sample and an active one, otherwise the
      picked sample retires. What is left of the loop is unchanged. */
  method Pass(grid: array2<int>, st: Setting, maxSamples: int, samples: seq<Point>, active: seq<Point>, rng: Rng)
    returns (samples': seq<Point>, active': seq<Point>, rngOut: Rng)
    requires GridRecords(grid, samples, st) && 0 < |active| && |samples| < maxSamples
    modifies grid
    ensures GridRecords(grid, samples', st)
    ensures Grow(st, maxSamples, samples', active', rngOut) == Grow(st, maxSamples, samples, active, rng)
    ensures (|samples'| == |samples| + 1 && |active'| == |active| + 1) || (samples' == samples && |active'| == |active| - 1)
  {
    hide Newest, GridRecords, Clear, Accepted, FirstAccepted;
    var pick := RangeInt(rng, 0, |active|);
    var idx := pick.0;
    var point := active[idx];
    var found, cand;
    found, cand, rngOut := TryAround(grid, samples, point, st, pick.1);
    if found {
      samples' := samples + [cand];
      active' := active + [cand];
      assert samples'[..|samples'| - 1] == samples;
      Remember(grid, st, samples');
    } else {
      samples' := samples;
      active' := active[..idx] + active[idx + 1..];
    }
  }

  /** With no active sample or no room left, the loop is over. */
  lemma GrowDone(st: Setting, maxSamples: int, samples: seq<Point>, active: seq<Point>, rng: Rng)
    requires st.Valid() && (|active| == 0 || maxSamples <= |samples|)
    ensures Grow(st, maxSamples, samples, active, rng) == (samples, rng)
  {
  }

  /** What the loop's result inherits from `Grow` and the seed. */
  lemma GrowFromSeed(st: Setting, maxSamples: int, seed: seq<Point>, seedRng: Rng, samples: seq<Point>, center: Point)
    requires st.Valid() && |seed| <= 1
    requires forall i :: 0 <= i < |seed| ==> PolygonUtils.InPolygon(seed[i], st.polygon)
    requires samples == Grow(st, maxSamples, seed, seed, seedRng).0
    ensures |seed| <= |samples| <= MaxInt(maxSamples, 1) && samples[..|seed|] == seed
    ensures forall i :: 0 <= i < |samples| ==> PolygonUtils.InPolygon(samples[i], st.polygon)
    ensures forall i :: |seed| <= i < |samples| ==> InBox(samples[i], st.lo, st.hi) && Clear(st, samples[..i], samples[i])
  {
    GrowAppendsAccepted(st, maxSamples, seed, seed, seedRng);
    forall i | 0 <= i < |samples|
      ensures PolygonUtils.InPolygon(samples[i], st.polygon)
    {
      if i < |seed| {
        assert samples[i] == samples[..|seed|][i];
      }
    }
  }
}
