/** `VornoiUtils.ReduceSites`: keep the first site and the protected ones,
    then add the site farthest from everything kept until `maxSites` sites
    are kept, and list the kept sites in their original order. */
module SiteReduction {
  import opened Geometry
  import opened Sequences

  /** `keep[0] = true` on an empty `keep` array throws; this is the only failure. */
  datatype ReduceResult = Reduced(sites: seq<Point>) | KeepIndexOutOfRange

  /** Every entry of `sel` indexes `sites`. */
  predicate Indexes(sel: seq<nat>, n: nat)
  {
    forall t :: 0 <= t < |sel| ==> sel[t] < n
  }

  /** The sites at the positions `idx`, in that order. */
  function Pick(sites: seq<Point>, idx: seq<nat>): (r: seq<Point>)
    requires Indexes(idx, |sites|)
    ensures |r| == |idx| && forall t :: 0 <= t < |idx| ==> r[t] == sites[idx[t]]
  {
    seq(|idx|, t requires 0 <= t < |idx| => sites[idx[t]])
  }

  // ---------------------------------------------------------------------------
  // The kept flags
  // ---------------------------------------------------------------------------

  /** The `keep` flags after the protection loop and `keep[0] = true`. */
  function ProtectedKeep(count: nat, protectedIndices: seq<int>): (keep: seq<bool>)
    requires 1 <= count
    ensures |keep| == count
    ensures forall i :: 0 <= i < count ==> (keep[i] <==> i == 0 || i in protectedIndices)
  {
    seq(count, i => i == 0 || i in protectedIndices)
  }

  /** How many of the first `n` flags are set. */
  function Count(keep: seq<bool>, n: nat): (c: nat)
    requires n <= |keep|
    ensures c <= n
  {
    if n == 0 then 0 else Count(keep, n - 1) + (if keep[n - 1] then 1 else 0)
  }

  /** The positions below `n` whose flag is set, in increasing order: the `selected` list. */
  function TrueIndices(keep: seq<bool>, n: nat): (r: seq<nat>)
    requires n <= |keep|
    ensures |r| == Count(keep, n)
    ensures forall t :: 0 <= t < |r| ==> r[t] < n && keep[r[t]]
  {
    if n == 0 then [] else TrueIndices(keep, n - 1) + (if keep[n - 1] then [n - 1] else [])
  }

  /** The listed positions increase, and every set flag below `n` is listed. */
  lemma {:induction false} TrueIndicesComplete(keep: seq<bool>, n: nat)
    requires n <= |keep|
    ensures var r := TrueIndices(keep, n);
      && (forall s, t :: 0 <= s < t < |r| ==> r[s] < r[t])
      && (forall j :: 0 <= j < n && keep[j] ==> j in r)
  {
    if n > 0 {
      TrueIndicesComplete(keep, n - 1);
    }
  }

  /** A shorter scan lists a prefix of what a longer scan lists. */
  lemma {:induction false} TrueIndicesPrefix(keep: seq<bool>, i: nat, n: nat)
    requires i <= n <= |keep|
    ensures |TrueIndices(keep, i)| <= |TrueIndices(keep, n)|
    ensures TrueIndices(keep, i) == TrueIndices(keep, n)[..|TrueIndices(keep, i)|]
    decreases n - i
  {
    if i < n {
      TrueIndicesPrefix(keep, i, n - 1);
      var a := TrueIndices(keep, i);
      var b := TrueIndices(keep, n - 1);
      var x: seq<nat> := if keep[n - 1] then [n - 1] else [];
      assert TrueIndices(keep, n) == b + x;
      assert (b + x)[..|a|] == b[..|a|];
    }
  }

  /** Setting one unset flag adds one to every count that covers it. */
  lemma {:induction false} CountSet(keep: seq<bool>, b: nat, n: nat)
    requires b < |keep| && !keep[b] && n <= |keep|
    ensures Count(keep[b := true], n) == Count(keep, n) + (if b < n then 1 else 0)
  {
    if n > 0 {
      CountSet(keep, b, n - 1);
    }
  }

  /** With every flag set, the count is the length. */
  lemma {:induction false} CountAll(keep: seq<bool>, n: nat)
    requires n <= |keep| && forall j :: 0 <= j < n ==> keep[j]
    ensures Count(keep, n) == n
  {
    if n > 0 {
      CountAll(keep, n - 1);
    }
  }

  // ---------------------------------------------------------------------------
  // The farthest-point choice
  // ---------------------------------------------------------------------------

  /** `minDistSq` of the inner loop: the least squared distance from site `i`
      to the first `n` selected sites, starting from `float.MaxValue`. */
  function MinSqDist(sites: seq<Point>, i: nat, sel: seq<nat>, n: nat): (m: real)
    requires i < |sites| && Indexes(sel, |sites|) && n <= |sel|
    ensures 0.0 <= m <= FloatMax
  {
    if n == 0 then FloatMax
    else
      var m := MinSqDist(sites, i, sel, n - 1);
      var d := SqDist(sites[i], sites[sel[n - 1]]);
      SqDistNonNegative(sites[i], sites[sel[n - 1]]);
      if d < m then d else m
  }

  /** `minDistSq` is at most the distance to each of the first `n` selected
      sites, and it is one of them unless it is still `float.MaxValue`. */
  lemma {:induction false} MinSqDistIsLeast(sites: seq<Point>, i: nat, sel: seq<nat>, n: nat)
    requires i < |sites| && Indexes(sel, |sites|) && n <= |sel|
    ensures forall t :: 0 <= t < n ==> MinSqDist(sites, i, sel, n) <= SqDist(sites[i], sites[sel[t]])
    ensures MinSqDist(sites, i, sel, n) == FloatMax ||
      exists t :: 0 <= t < n && MinSqDist(sites, i, sel, n) == SqDist(sites[i], sites[sel[t]])
  {
    if n > 0 {
      MinSqDistIsLeast(sites, i, sel, n - 1);
    }
  }

  /** `(bestIdx, bestDist)` after scanning the first `n` sites: the unkept
      site whose least distance to the selection is largest, the lowest index
      winning ties, or `(-1, -1)` when all of them are kept. */
  function Farthest(sites: seq<Point>, keep: seq<bool>, sel: seq<nat>, n: nat): (best: (int, real))
    requires |keep| == |sites| && Indexes(sel, |sites|) && n <= |sites|
    ensures best.0 == -1 <==> forall j :: 0 <= j < n ==> keep[j]
    ensures best.0 == -1 ==> best.1 == -1.0
    ensures best.0 != -1 ==> 0 <= best.0 < n && !keep[best.0] && best.1 == MinSqDist(sites, best.0, sel, |sel|)
    ensures forall j :: 0 <= j < n && !keep[j] ==> MinSqDist(sites, j, sel, |sel|) <= best.1
    ensures forall j :: 0 <= j < best.0 && !keep[j] ==> MinSqDist(sites, j, sel, |sel|) < best.1
  {
    if n == 0 then (-1, -1.0)
    else
      var b := Farthest(sites, keep, sel, n - 1);
      if !keep[n - 1] && MinSqDist(sites, n - 1, sel, |sel|) > b.1 then (n - 1, MinSqDist(sites, n - 1, sel, |sel|))
      else b
  }

  /** `selected` lists kept sites only, as many as there are kept flags. */
  ghost predicate Selection(keep: seq<bool>, sel: seq<nat>)
  {
    && (forall t :: 0 <= t < |sel| ==> sel[t] < |keep| && keep[sel[t]])
    && |sel| == Count(keep, |keep|)
  }

  /** The greedy loop: while fewer than `maxSites` are selected, keep and
      select the farthest unkept site; stop when none is left. */
  function Greedy(sites: seq<Point>, keep: seq<bool>, sel: seq<nat>, maxSites: int): (res: (seq<bool>, seq<nat>))
    requires |keep| == |sites| && Indexes(sel, |sites|)
    ensures |res.0| == |keep| && Indexes(res.1, |sites|)
    ensures |sel| >= maxSites ==> res == (keep, sel)
    decreases maxSites - |sel|
  {
    if |sel| >= maxSites then (keep, sel)
    else
      var b := Farthest(sites, keep, sel, |sites|).0;
      if b == -1 then (keep, sel) else Greedy(sites, keep[b := true], sel + [b], maxSites)
  }

  /** The greedy loop keeps what was kept, keeps `selected` exact, and, when
      there are more sites than `maxSites`, ends with exactly
      `max(|selected|, maxSites)` kept sites. */
  lemma {:induction false} GreedyFills(sites: seq<Point>, keep: seq<bool>, sel: seq<nat>, maxSites: int)
    requires |keep| == |sites| && Indexes(sel, |sites|) && Selection(keep, sel)
    ensures var res := Greedy(sites, keep, sel, maxSites);
      && Selection(res.0, res.1)
      && (forall j :: 0 <= j < |keep| && keep[j] ==> res.0[j])
      && (maxSites < |sites| ==> |res.1| == if |sel| >= maxSites then |sel| else maxSites)
    decreases maxSites - |sel|
  {
    if |sel| < maxSites {
      var b := Farthest(sites, keep, sel, |sites|).0;
      if b == -1 {
        CountAll(keep, |keep|);
      } else {
        var keep' := keep[b := true];
        CountSet(keep, b, |keep|);
        assert Selection(keep', sel + [b]);
        GreedyFills(sites, keep', sel + [b], maxSites);
      }
    }
  }

  // ---------------------------------------------------------------------------
  // The result list
  // ---------------------------------------------------------------------------

  /** The result loop from position `i` on, `acc` holding the positions
      already listed: list every kept site, stopping once `maxSites` are listed. */
  function Emit(keep: seq<bool>, maxSites: int, i: nat, acc: seq<nat>): (idx: seq<nat>)
    requires i <= |keep| && Indexes(acc, |keep|)
    ensures Indexes(idx, |keep|)
    decreases |keep| - i
  {
    if i == |keep| then acc
    else
      var acc' := if keep[i] then acc + [i] else acc;
      if |acc'| >= maxSites then acc' else Emit(keep, maxSites, i + 1, acc')
  }

  /** When the listing starts with the kept positions below `i` and fewer than
      `maxSites` of them, it ends with the first `maxSites` kept positions (or
      all of them). */
  lemma {:induction false} EmitTakesPrefix(keep: seq<bool>, maxSites: int, i: nat)
    requires i <= |keep| && |TrueIndices(keep, i)| < maxSites
    ensures var all := TrueIndices(keep, |keep|);
      Emit(keep, maxSites, i, TrueIndices(keep, i)) == all[..if maxSites <= |all| then maxSites else |all|]
    decreases |keep| - i
  {
    var all := TrueIndices(keep, |keep|);
    TrueIndicesPrefix(keep, i, |keep|);
    if i < |keep| {
      var acc' := TrueIndices(keep, i + 1);
      assert acc' == TrueIndices(keep, i) + (if keep[i] then [i] else []);
      TrueIndicesPrefix(keep, i + 1, |keep|);
      if |acc'| < maxSites {
        EmitTakesPrefix(keep, maxSites, i + 1);
      }
    }
  }

  /** The positions `ReduceSites` lists when it has more than `maxSites` sites. */
  function ReduceIndices(sites: seq<Point>, maxSites: int, protectedIndices: seq<int>): (idx: seq<nat>)
    requires 1 <= |sites|
    ensures Indexes(idx, |sites|)
  {
    var keep := ProtectedKeep(|sites|, protectedIndices);
    var g := Greedy(sites, keep, TrueIndices(keep, |sites|), maxSites);
    Emit(g.0, maxSites, 1, [0])
  }

  /** What `ReduceSites` returns. */
  function Reduce(sites: seq<Point>, maxSites: int, protectedIndices: seq<int>): ReduceResult
  {
    if |sites| <= maxSites then Reduced(sites)
    else if |sites| == 0 then KeepIndexOutOfRange
    else Reduced(Pick(sites, ReduceIndices(sites, maxSites, protectedIndices)))
  }

  // ---------------------------------------------------------------------------
  // What the result is
  // ---------------------------------------------------------------------------

  /** The flags after the greedy loop, and how many of them are set. */
  lemma GreedyKeep(sites: seq<Point>, maxSites: int, protectedIndices: seq<int>)
    returns (keep: seq<bool>)
    requires 1 <= |sites|
    ensures |keep| == |sites| && keep[0]
    ensures forall p :: p in protectedIndices && 0 <= p < |sites| ==> keep[p]
    ensures ReduceIndices(sites, maxSites, protectedIndices) == Emit(keep, maxSites, 1, [0])
    ensures maxSites < |sites| ==>
      var k0 := Count(ProtectedKeep(|sites|, protectedIndices), |sites|);
      Count(keep, |sites|) == if k0 >= maxSites then k0 else maxSites
    ensures maxSites <= 1 ==> keep == ProtectedKeep(|sites|, protectedIndices)
  {
    var keep0 := ProtectedKeep(|sites|, protectedIndices);
    var sel0 := TrueIndices(keep0, |sites|);
    GreedyFills(sites, keep0, sel0, maxSites);
    keep := Greedy(sites, keep0, sel0, maxSites).0;
    if maxSites <= 1 {
      TrueIndicesComplete(keep0, |sites|);
      assert 0 in sel0;
    }
  }

  /** With no more sites than `maxSites`, `ReduceSites` returns them all. */
  lemma ReduceFits(sites: seq<Point>, maxSites: int, protectedIndices: seq<int>)
    requires |sites| <= maxSites
    ensures Reduce(sites, maxSites, protectedIndices) == Reduced(sites)
  {
  }

  /** With `maxSites >= 2` the listing is the first `maxSites` kept positions, or all of them. */
  lemma ReduceIndicesPrefix(sites: seq<Point>, maxSites: int, protectedIndices: seq<int>) returns (keep: seq<bool>)
    requires 2 <= maxSites < |sites|
    ensures |keep| == |sites| && keep[0]
    ensures forall p :: p in protectedIndices && 0 <= p < |sites| ==> keep[p]
    ensures Count(keep, |sites|) == var k0 := Count(ProtectedKeep(|sites|, protectedIndices), |sites|);
      if k0 >= maxSites then k0 else maxSites
    ensures var all := TrueIndices(keep, |sites|);
      ReduceIndices(sites, maxSites, protectedIndices) == all[..if maxSites <= |all| then maxSites else |all|]
  {
    keep := GreedyKeep(sites, maxSites, protectedIndices);
    assert TrueIndices(keep, 1) == [0];
    EmitTakesPrefix(keep, maxSites, 1);
  }

  lemma IncreasingPrefix(all: seq<nat>, m: nat)
    requires 1 <= m <= |all| && forall s, t :: 0 <= s < t < |all| ==> all[s] < all[t]
    ensures var p := all[..m]; p[0] == all[0] && forall s, t :: 0 <= s < t < |p| ==> p[s] < p[t]
  {
  }

  /** The listed positions start at 0 and increase. */
  lemma ReduceIndicesOrdered(sites: seq<Point>, maxSites: int, protectedIndices: seq<int>)
    requires 1 <= |sites| && maxSites < |sites|
    ensures var idx := ReduceIndices(sites, maxSites, protectedIndices);
      1 <= |idx| && idx[0] == 0 && forall s, t :: 0 <= s < t < |idx| ==> idx[s] < idx[t]
  {
    hide Greedy, Emit;
    var idx := ReduceIndices(sites, maxSites, protectedIndices);
    if 2 <= maxSites {
      var keep := ReduceIndicesPrefix(sites, maxSites, protectedIndices);
      var all := TrueIndices(keep, |keep|);
      TrueIndicesComplete(keep, |keep|);
      TrueIndicesPrefix(keep, 1, |keep|);
      assert TrueIndices(keep, 1) == [0];
      IncreasingPrefix(all, if maxSites <= |all| then maxSites else |all|);
    } else {
      SmallLimitIndices(sites, maxSites, protectedIndices);
    }
  }

  /** Otherwise the result starts with the first site and is the input with
      some sites left out and the rest in order. */
  lemma ReduceKeepsOrder(sites: seq<Point>, maxSites: int, protectedIndices: seq<int>)
    requires 1 <= |sites| && maxSites < |sites|
    ensures Reduce(sites, maxSites, protectedIndices).Reduced?
    ensures var r := Reduce(sites, maxSites, protectedIndices).sites;
      1 <= |r| && r[0] == sites[0] && IsSubsequence(r, sites)
  {
    var idx := ReduceIndices(sites, maxSites, protectedIndices);
    ReduceIndicesOrdered(sites, maxSites, protectedIndices);
    assert Embeds(idx, Pick(sites, idx), sites);
  }

  /** With `maxSites >= 2` the result has at most `maxSites` sites; when the
      first site and the in-range protected ones number at most `maxSites`, it
      has exactly `maxSites` and lists every one of them. */
  lemma ReduceCount(sites: seq<Point>, maxSites: int, protectedIndices: seq<int>)
    requires 2 <= maxSites < |sites|
    ensures var idx := ReduceIndices(sites, maxSites, protectedIndices);
      && |idx| <= maxSites
      && (Count(ProtectedKeep(|sites|, protectedIndices), |sites|) <= maxSites ==>
            |idx| == maxSites && 0 in idx &&
            forall p :: p in protectedIndices && 0 <= p < |sites| ==> p in idx)
  {
    var keep := ReduceIndicesPrefix(sites, maxSites, protectedIndices);
    TrueIndicesComplete(keep, |keep|);
  }

  /** With `maxSites <= 1` the greedy loop does not run and the result loop
      stops after position 1. */
  lemma SmallLimitIndices(sites: seq<Point>, maxSites: int, protectedIndices: seq<int>)
    requires maxSites <= 1 && 1 <= |sites|
    ensures ReduceIndices(sites, maxSites, protectedIndices) ==
      [0] + (if 2 <= |sites| && 1 in protectedIndices then [1] else [])
  {
    var keep := GreedyKeep(sites, maxSites, protectedIndices);
    var idx := ReduceIndices(sites, maxSites, protectedIndices);
    if 2 <= |sites| {
      assert idx == [0] + (if keep[1] then [1] else []);
    } else {
      assert idx == [0];
    }
  }

  /** With `maxSites <= 1` no site is chosen by distance: the result is the
      first site, followed by the second when index 1 is protected. */
  lemma ReduceSmallLimit(sites: seq<Point>, maxSites: int, protectedIndices: seq<int>)
    requires maxSites <= 1 && 1 <= |sites|
    ensures Reduce(sites, maxSites, protectedIndices) ==
      Reduced([sites[0]] + (if 2 <= |sites| && 1 in protectedIndices then [sites[1]] else []))
  {
    if maxSites < |sites| {
      SmallLimitIndices(sites, maxSites, protectedIndices);
    }
  }

  // ---------------------------------------------------------------------------
  // The method
  // ---------------------------------------------------------------------------

  /** The protection loop and `keep[0] = true`. */
  method MarkProtected(count: nat, protectedIndices: seq<int>) returns (keep: array<bool>)
    requires 1 <= count
    ensures fresh(keep) && keep[..] == ProtectedKeep(count, protectedIndices)
  {
    keep := new bool[count](_ => false);
    for i := 0 to |protectedIndices|
      invariant forall j :: 0 <= j < count ==> (keep[j] <==> j in protectedIndices[..i])
    {
      var pi := protectedIndices[i];
      if 0 <= pi < count {
        keep[pi] := true;
      }
      assert protectedIndices[..i + 1] == protectedIndices[..i] + [pi];
    }
    assert protectedIndices[..|protectedIndices|] == protectedIndices;
    keep[0] := true;
  }

  /** The loop that lists the kept positions into `selected`. */
  method SelectKept(keep: array<bool>) returns (selected: seq<nat>)
    ensures selected == TrueIndices(keep[..], keep.Length)
  {
    selected := [];
    for i := 0 to keep.Length
      invariant selected == TrueIndices(keep[..], i)
    {
      if keep[i] {
        selected := selected + [i];
      }
    }
  }

  /** The innermost loop: the least squared distance to the selection. */
  method ClosestSelected(sites: seq<Point>, i: nat, selected: seq<nat>) returns (minDistSq: real)
    requires i < |sites| && Indexes(selected, |sites|)
    ensures minDistSq == MinSqDist(sites, i, selected, |selected|)
  {
    minDistSq := FloatMax;
    for s := 0 to |selected|
      invariant minDistSq == MinSqDist(sites, i, selected, s)
    {
      var d := SqDist(sites[i], sites[selected[s]]);
      if d < minDistSq {
        minDistSq := d;
      }
    }
  }

  /** One pass of the scan over all sites for the farthest unkept one. */
  method FarthestUnkept(sites: seq<Point>, keep: array<bool>, selected: seq<nat>) returns (bestIdx: int)
    requires keep.Length == |sites| && Indexes(selected, |sites|)
    ensures bestIdx == Farthest(sites, keep[..], selected, |sites|).0
  {
    bestIdx := -1;
    var bestDist := -1.0;
    for i := 0 to |sites|
      invariant (bestIdx, bestDist) == Farthest(sites, keep[..], selected, i)
    {
      if keep[i] {
        continue;
      }
      var minDistSq := ClosestSelected(sites, i, selected);
      if minDistSq > bestDist {
        bestDist := minDistSq;
        bestIdx := i;
      }
    }
  }

  /** The greedy loop over `keep` and `selected`. */
  method GrowSelection(sites: seq<Point>, keep: array<bool>, selected: seq<nat>, maxSites: int)
    returns (grown: seq<nat>)
    requires keep.Length == |sites| && Indexes(selected, |sites|)
    modifies keep
    ensures (keep[..], grown) == Greedy(sites, old(keep[..]), selected, maxSites)
  {
    grown := selected;
    while |grown| < maxSites
      invariant Indexes(grown, |sites|)
      invariant Greedy(sites, keep[..], grown, maxSites) == Greedy(sites, old(keep[..]), selected, maxSites)
      decreases maxSites - |grown|
    {
      var bestIdx := FarthestUnkept(sites, keep, grown);
      if bestIdx == -1 {
        break;
      }
      keep[bestIdx] := true;
      grown := grown + [bestIdx];
    }
  }

  /** The result loop: the first site, then the kept ones in order until `maxSites` are listed. */
  method ListKept(sites: seq<Point>, keep: array<bool>, maxSites: int) returns (result: seq<Point>)
    requires 1 <= keep.Length == |sites|
    ensures result == Pick(sites, Emit(keep[..], maxSites, 1, [0]))
  {
    var count := |sites|;
    result := [sites[0]];
    ghost var idx: seq<nat> := [0];
    var i := 1;
    while i < count
      invariant 1 <= i <= count && Indexes(idx, count)
      invariant result == Pick(sites, idx)
      invariant Emit(keep[..], maxSites, i, idx) == Emit(keep[..], maxSites, 1, [0])
      decreases count - i
    {
      if keep[i] {
        result := result + [sites[i]];
        idx := idx + [i];
      }
      if |result| >= maxSites {
        break;
      }
      i := i + 1;
    }
  }

  /** `VornoiUtils.ReduceSites`. */
  method ReduceSites(sites: seq<Point>, maxSites: int, protectedIndices: seq<int>) returns (r: ReduceResult)
    ensures r == Reduce(sites, maxSites, protectedIndices)
  {
    var count := |sites|;
    if count <= maxSites {
      return Reduced(sites);
    }
    if count == 0 {
      return KeepIndexOutOfRange;
    }
    var keep := MarkProtected(count, protectedIndices);
    var selected := SelectKept(keep);
    selected := GrowSelection(sites, keep, selected, maxSites);
    var result := ListKept(sites, keep, maxSites);
    return Reduced(result);
  }
}
