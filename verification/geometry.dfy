/** Unity's `Vector2` as an exact pair of reals, the single-precision constants
    the generator relies on, and the engine's square root and trigonometry as
    oracles that callers pass in. */
module Geometry {

  datatype Point = Point(x: real, y: real)

  const Zero := Point(0.0, 0.0)

  function Add(a: Point, b: Point): Point { Point(a.x + b.x, a.y + b.y) }

  function Sub(a: Point, b: Point): Point { Point(a.x - b.x, a.y - b.y) }

  function Scale(a: Point, s: real): Point { Point(a.x * s, a.y * s) }

  /** `Vector2.sqrMagnitude`. */
  function SqMag(a: Point): real { a.x * a.x + a.y * a.y }

  /** `(a - b).sqrMagnitude`. */
  function SqDist(a: Point, b: Point): real { SqMag(Sub(a, b)) }

  lemma SqMagNonNegative(a: Point)
    ensures 0.0 <= SqMag(a)
  {
    assert 0.0 <= a.x * a.x && 0.0 <= a.y * a.y;
  }

  lemma SqDistNonNegative(a: Point, b: Point)
    ensures 0.0 <= SqDist(a, b)
  {
    SqMagNonNegative(Sub(a, b));
  }

  /** `(p - c).magnitude <= r`, stated without a square root: for a
      non-negative `r` the two comparisons agree, and a magnitude is never
      at most a negative radius. */
  predicate WithinRadius(p: Point, c: Point, r: real) {
    0.0 <= r && SqDist(p, c) <= r * r
  }

  /** Largest finite single-precision value (`float.MaxValue`). */
  const FloatMax: real := 340282346638528859811704183484516925440.0
  /** `float.MinValue`. */
  const FloatMin: real := -FloatMax
  /** `Mathf.Epsilon`, the smallest positive single-precision value. */
  const MathfEpsilon: real := 0.000000000000000000000000000000000000000000001401298
  /** `Vector2.kEpsilon`: `normalized` returns the zero vector at or below this magnitude. */
  const NormalizeEpsilon: real := 0.00001
  /** `Mathf.PI` and `Mathf.Sqrt(2.0f)` as single-precision values. */
  const Pi: real := 3.1415927
  const Sqrt2: real := 1.4142135

  /** A coordinate pair that a single-precision `Vector2` can hold. */
  predicate Finite(p: Point) {
    FloatMin <= p.x <= FloatMax && FloatMin <= p.y <= FloatMax
  }

  /** The engine's `Mathf.Sqrt`, `Mathf.Cos` and `Mathf.Sin`. */
  datatype MathOracles = MathOracles(sqrt: real -> real, cos: real -> real, sin: real -> real)

  /** `sqrt` is the exact non-negative square root on non-negative arguments. */
  ghost predicate IsSqrt(sqrt: real -> real) {
    forall x :: 0.0 <= x ==> 0.0 <= sqrt(x) && sqrt(x) * sqrt(x) == x
  }

  /** `Vector2.magnitude`. */
  function Magnitude(m: MathOracles, a: Point): real { m.sqrt(SqMag(a)) }

  /** `Vector2.normalized`: the unit vector along `a`, or zero when `a` is
      (almost) zero. */
  function Normalized(m: MathOracles, a: Point): Point {
    var mag := Magnitude(m, a);
    if mag > NormalizeEpsilon then Scale(a, 1.0 / mag) else Zero
  }

  /** `p + (r cos a, r sin a)`. */
  function Polar(m: MathOracles, p: Point, r: real, a: real): Point {
    Add(p, Point(r * m.cos(a), r * m.sin(a)))
  }

  function Min(a: real, b: real): real { if a <= b then a else b }

  function Max(a: real, b: real): real { if a >= b then a else b }
}

/** Order-preserving embeddings of one sequence in another. */
module Sequences {

  /** `idx` picks the elements of `a` out of `b`, at strictly increasing positions. */
  ghost predicate Embeds<T>(idx: seq<nat>, a: seq<T>, b: seq<T>) {
    && |idx| == |a|
    && (forall t :: 0 <= t < |idx| ==> idx[t] < |b| && b[idx[t]] == a[t])
    && (forall s, t :: 0 <= s < t < |idx| ==> idx[s] < idx[t])
  }

  /** `a` is `b` with some elements left out and the rest in their order. */
  ghost predicate IsSubsequence<T>(a: seq<T>, b: seq<T>) {
    exists idx :: Embeds(idx, a, b)
  }

  /** Positions `0 .. n-1`. */
  function Identity(n: nat): (idx: seq<nat>)
    ensures |idx| == n && forall t :: 0 <= t < n ==> idx[t] == t
  {
    seq(n, t => t)
  }

  /** Where the positions in `idx` move to once an element is inserted at `k`. */
  function ShiftFrom(idx: seq<nat>, k: nat): (r: seq<nat>)
    ensures |r| == |idx|
    ensures forall t :: 0 <= t < |idx| ==> r[t] == if idx[t] < k then idx[t] else idx[t] + 1
  {
    seq(|idx|, t requires 0 <= t < |idx| => if idx[t] < k then idx[t] else idx[t] + 1)
  }

  lemma EmbedsSelf<T>(a: seq<T>)
    ensures Embeds(Identity(|a|), a, a)
  {
  }

  /** Inserting an element anywhere keeps every embedding, shifted past the insertion point. */
  lemma EmbedsAfterInsert<T>(idx: seq<nat>, a: seq<T>, b: seq<T>, k: nat, x: T)
    requires Embeds(idx, a, b) && k <= |b|
    ensures Embeds(ShiftFrom(idx, k), a, b[..k] + [x] + b[k..])
  {
    var b' := b[..k] + [x] + b[k..];
    var r := ShiftFrom(idx, k);
    forall t | 0 <= t < |r|
      ensures r[t] < |b'| && b'[r[t]] == a[t]
    {
      if idx[t] < k {
        assert b'[idx[t]] == b[idx[t]];
      } else {
        assert b'[idx[t] + 1] == b[idx[t]];
      }
    }
  }

  /** Appending matching elements to both sides extends an embedding. */
  lemma EmbedsAppend<T>(idx: seq<nat>, a: seq<T>, b: seq<T>, i: nat)
    requires Embeds(idx, a, b) && i < |b|
    requires forall t :: 0 <= t < |idx| ==> idx[t] < i
    ensures Embeds(idx + [i], a + [b[i]], b)
  {
  }
}

/** `UnityEngine.Random` as an explicit stream of raw draws. The seeded
    generator is the function `draws`; `next` counts the draws consumed, so
    two runs that consume the same stream in the same order see the same
    values. */
module UnityRandom {

  datatype Rng = Rng(draws: nat -> real, next: nat)

  /** The stream after `n` more draws. */
  function Skip(rng: Rng, n: nat): Rng { Rng(rng.draws, rng.next + n) }

  /** A raw draw read as a fraction of the unit interval. */
  function Unit(u: real): (r: real)
    ensures 0.0 <= r <= 1.0
    ensures 0.0 <= u <= 1.0 ==> r == u
  {
    if u < 0.0 then 0.0 else if u > 1.0 then 1.0 else u
  }

  /** `lo + (hi - lo) u`, which lies between `lo` and `hi` for a fraction `u`. */
  function Lerp(lo: real, hi: real, u: real): (r: real)
    ensures lo <= hi && 0.0 <= u <= 1.0 ==> lo <= r <= hi
  {
    var d := hi - lo;
    assert 0.0 <= u <= 1.0 ==> 0.0 <= d * (1.0 - u) || d < 0.0;
    assert d * u + d * (1.0 - u) == d;
    lo + d * u
  }

  /** `Random.Range(float lo, float hi)`: one draw, inclusive at both ends. */
  function Range(rng: Rng, lo: real, hi: real): (res: (real, Rng))
    ensures res.1 == Skip(rng, 1)
    ensures lo <= hi ==> lo <= res.0 <= hi
  {
    (Lerp(lo, hi, Unit(rng.draws(rng.next))), Skip(rng, 1))
  }

  /** `Random.Range(int lo, int hi)` for `lo < hi`: one draw in `[lo, hi)`. */
  function RangeInt(rng: Rng, lo: int, hi: int): (res: (int, Rng))
    requires lo < hi
    ensures res.1 == Skip(rng, 1)
    ensures lo <= res.0 < hi
  {
    var u := Unit(rng.draws(rng.next));
    var k := (u * (hi - lo) as real).Floor;
    assert 0 <= k by {
      assert u * (hi - lo) as real >= 0.0;
    }
    (lo + (if k < hi - lo then k else hi - lo - 1), Skip(rng, 1))
  }
}
