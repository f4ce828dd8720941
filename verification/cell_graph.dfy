/** `CellModel`: a cell's unlock state and its adjacency list. */
module CellModels {

  datatype CellState = Locked | Available | Opened

  class CellModel {
    var state: CellState
    var neighbors: seq<CellModel>

    /** `new CellModel()`: the default state (taken to be `Locked`) and no neighbours. */
    constructor()
      ensures state == Locked && neighbors == []
    {
      state := Locked;
      neighbors := [];
    }

    /** `IsOpened`. */
    predicate IsOpened()
      reads this
    {
      state == Opened
    }
  }

  /** No model appears twice. */
  predicate Distinct(models: seq<CellModel>)
  {
    forall x, y :: 0 <= x < y < |models| ==> models[x] != models[y]
  }
}

/** `CellGraphBuilder.Build`: link every pair of cells whose polygons share
    an edge, each pair examined once with the lower index first. */
module CellGraphBuilder {
  import opened Geometry
  import opened CellModels
  import PolygonUtils

  /** Cells `x` and `y` are linked: distinct, and their polygons share an
      edge, checked with the lower index first. */
  predicate Linked(polygons: seq<seq<Point>>, eps: real, x: nat, y: nat)
    requires x < |polygons| && y < |polygons|
  {
    x != y &&
    if x < y then PolygonUtils.SharesEdge(polygons[x], polygons[y], eps)
    else PolygonUtils.SharesEdge(polygons[y], polygons[x], eps)
  }

  /** The models at positions below `hi` linked to `x`, in order of position:
      what `Build` appends to the neighbours of model `x` once `hi` is its count. */
  function Links(models: seq<CellModel>, polygons: seq<seq<Point>>, eps: real, x: nat, hi: nat): (r: seq<CellModel>)
    requires x < |models| <= |polygons| && hi <= |models|
    ensures |r| <= hi
  {
    if hi == 0 then [] else
      Links(models, polygons, eps, x, hi - 1) + (if Linked(polygons, eps, x, hi - 1) then [models[hi - 1]] else [])
  }

  /** What model `x` has gained once the pairs before `(i, j)` have been examined. */
  function Gained(models: seq<CellModel>, polygons: seq<seq<Point>>, eps: real, x: nat, i: nat, j: nat): seq<CellModel>
    requires x < |models| <= |polygons| && i < j <= |models|
  {
    var n := |models|;
    if x < i then Links(models, polygons, eps, x, n)
    else if x == i then Links(models, polygons, eps, x, j)
    else if x < j then Links(models, polygons, eps, x, i + 1)
    else Links(models, polygons, eps, x, i)
  }

  /** Linking is the edge-sharing test, whichever way round it is asked. */
  lemma LinkedIsShared(polygons: seq<seq<Point>>, eps: real, x: nat, y: nat)
    requires x < |polygons| && y < |polygons|
    ensures Linked(polygons, eps, x, y) == Linked(polygons, eps, y, x)
    ensures Linked(polygons, eps, x, y) <==> x != y && PolygonUtils.SharesEdge(polygons[x], polygons[y], eps)
  {
    PolygonUtils.SharesEdgeSymmetric(polygons[x], polygons[y], eps);
  }

  /** Model `y` is among the links of `x` below `hi` exactly when `y < hi` and they are linked. */
  lemma {:induction false} LinksMembers(models: seq<CellModel>, polygons: seq<seq<Point>>, eps: real, x: nat, hi: nat, y: nat)
    requires x < |models| <= |polygons| && hi <= |models| && y < |models| && Distinct(models)
    ensures models[y] in Links(models, polygons, eps, x, hi) <==> y < hi && Linked(polygons, eps, x, y)
  {
    if hi > 0 {
      LinksMembers(models, polygons, eps, x, hi - 1, y);
    }
  }

  /** Every link of `x` below `hi` is one of the models below `hi`. */
  lemma {:induction false} LinksAreModels(models: seq<CellModel>, polygons: seq<seq<Point>>, eps: real, x: nat, hi: nat)
    requires x < |models| <= |polygons| && hi <= |models|
    ensures forall c :: c in Links(models, polygons, eps, x, hi) ==> c in models[..hi]
  {
    if hi > 0 {
      LinksAreModels(models, polygons, eps, x, hi - 1);
      assert models[..hi] == models[..hi - 1] + [models[hi - 1]];
    }
  }

  /** The links of `x` below `hi` are distinct models. */
  lemma {:induction false} LinksDistinct(models: seq<CellModel>, polygons: seq<seq<Point>>, eps: real, x: nat, hi: nat)
    requires x < |models| <= |polygons| && hi <= |models| && Distinct(models)
    ensures Distinct(Links(models, polygons, eps, x, hi))
  {
    if hi > 0 {
      LinksDistinct(models, polygons, eps, x, hi - 1);
      if Linked(polygons, eps, x, hi - 1) {
        LinksMembers(models, polygons, eps, x, hi - 1, hi - 1);
      }
    }
  }

  /** The adjacency `Build` produces is symmetric, has no self-loops and
      lists no neighbour twice. */
  lemma BuildAdjacency(models: seq<CellModel>, polygons: seq<seq<Point>>, eps: real, x: nat, y: nat)
    requires x < |models| && y < |models| && |models| <= |polygons| && Distinct(models)
    ensures var n := |models|;
      models[y] in Links(models, polygons, eps, x, n) <==> models[x] in Links(models, polygons, eps, y, n)
    ensures models[y] in Links(models, polygons, eps, x, |models|) <==>
      x != y && PolygonUtils.SharesEdge(polygons[x], polygons[y], eps)
    ensures models[x] !in Links(models, polygons, eps, x, |models|)
    ensures Distinct(Links(models, polygons, eps, x, |models|))
  {
    LinksMembers(models, polygons, eps, x, |models|, y);
    LinksMembers(models, polygons, eps, y, |models|, x);
    LinksMembers(models, polygons, eps, x, |models|, x);
    LinkedIsShared(polygons, eps, x, y);
    LinksDistinct(models, polygons, eps, x, |models|);
  }

  /** Examining pair `(i, j)` extends what both of them have gained by one step. */
  lemma GainedStep(models: seq<CellModel>, polygons: seq<seq<Point>>, eps: real, i: nat, j: nat, x: nat)
    requires i < j < |models| <= |polygons| && x < |models|
    ensures var step := Linked(polygons, eps, i, j);
      && Gained(models, polygons, eps, x, i, j + 1) ==
         Gained(models, polygons, eps, x, i, j) +
           (if step && x == i then [models[j]] else if step && x == j then [models[i]] else [])
  {
    LinkedIsShared(polygons, eps, i, j);
  }

  /** What model `x` has gained before row `i` is examined. */
  function BeforeRow(models: seq<CellModel>, polygons: seq<seq<Point>>, eps: real, x: nat, i: nat): seq<CellModel>
    requires x < |models| <= |polygons| && i <= |models|
  {
    if x < i then Links(models, polygons, eps, x, |models|) else Links(models, polygons, eps, x, i)
  }

  /** A row starts where the previous one ended. */
  lemma RowBoundaries(models: seq<CellModel>, polygons: seq<seq<Point>>, eps: real, i: nat, x: nat)
    requires i < |models| <= |polygons| && x < |models|
    ensures Gained(models, polygons, eps, x, i, i + 1) == BeforeRow(models, polygons, eps, x, i)
    ensures Gained(models, polygons, eps, x, i, |models|) == BeforeRow(models, polygons, eps, x, i + 1)
  {
  }

  /** The body of the inner loop when the pair shares an edge. */
  method LinkPair(models: seq<CellModel>, i: nat, j: nat)
    requires i < j < |models| && Distinct(models)
    modifies models[i], models[j]
    ensures models[i].neighbors == old(models[i].neighbors) + [models[j]]
    ensures models[j].neighbors == old(models[j].neighbors) + [models[i]]
    ensures models[i].state == old(models[i].state) && models[j].state == old(models[j].state)
  {
    models[i].neighbors := models[i].neighbors + [models[j]];
    models[j].neighbors := models[j].neighbors + [models[i]];
  }

  /** One step of the inner loop: test pair `(i, j)` and link it when the
      polygons share an edge. */
  method LinkStep(models: seq<CellModel>, polygons: seq<seq<Point>>, eps: real, i: nat, j: nat, ghost base: seq<seq<CellModel>>)
    requires i < j < |models| <= |polygons| && |base| == |models| && Distinct(models)
    requires forall x :: 0 <= x < |models| ==>
      models[x].neighbors == base[x] + Gained(models, polygons, eps, x, i, j)
    modifies models
    ensures forall x :: 0 <= x < |models| ==>
      models[x].neighbors == base[x] + Gained(models, polygons, eps, x, i, j + 1)
    ensures forall x :: 0 <= x < |models| ==> models[x].state == old(models[x].state)
  {
    hide Links, Gained;
    ghost var pre := NeighborLists(models);
    LinkedIsShared(polygons, eps, i, j);
    var shared := PolygonUtils.ShareEdge(polygons[i], polygons[j], eps);
    if shared {
      LinkPair(models, i, j);
    }
    forall x | 0 <= x < |models|
      ensures models[x].neighbors == base[x] + Gained(models, polygons, eps, x, i, j + 1)
    {
      GainedStep(models, polygons, eps, i, j, x);
      if x != i && x != j {
        assert models[x].neighbors == pre[x];
      }
    }
  }

  /** The inner loop: test `i` against every later cell. `base` holds the
      neighbour lists as they were before `Build` began. */
  method LinkRow(models: seq<CellModel>, polygons: seq<seq<Point>>, eps: real, i: nat, ghost base: seq<seq<CellModel>>)
    requires i < |models| <= |polygons| && |base| == |models| && Distinct(models)
    requires forall x :: 0 <= x < |models| ==>
      models[x].neighbors == base[x] + Gained(models, polygons, eps, x, i, i + 1)
    modifies models
    ensures forall x :: 0 <= x < |models| ==>
      models[x].neighbors == base[x] + Gained(models, polygons, eps, x, i, |models|)
    ensures forall x :: 0 <= x < |models| ==> models[x].state == old(models[x].state)
  {
    hide Links, Gained;
    var n := |models|;
    for j := i + 1 to n
      invariant forall x :: 0 <= x < n ==> models[x].neighbors == base[x] + Gained(models, polygons, eps, x, i, j)
      invariant forall x :: 0 <= x < n ==> models[x].state == old(models[x].state)
    {
      LinkStep(models, polygons, eps, i, j, base);
    }
  }

  /** The current neighbour lists. */
  function NeighborLists(models: seq<CellModel>): (r: seq<seq<CellModel>>)
    reads models
    ensures |r| == |models| && forall x :: 0 <= x < |models| ==> r[x] == models[x].neighbors
  {
    if models == [] then [] else NeighborLists(models[..|models| - 1]) + [models[|models| - 1].neighbors]
  }

  /** `CellGraphBuilder.Build`: every model gains, in order of position, the
      models it is linked to; states are untouched. The graph lemmas above say
      what that adjacency is. */
  method Build(models: seq<CellModel>, polygons: seq<seq<Point>>, eps: real)
    requires |models| <= |polygons| && Distinct(models)
    modifies models
    ensures forall x :: 0 <= x < |models| ==>
      models[x].neighbors == old(models[x].neighbors) + Links(models, polygons, eps, x, |models|)
    ensures forall x :: 0 <= x < |models| ==> models[x].state == old(models[x].state)
  {
    hide Links, Gained;
    var n := |models|;
    ghost var base := NeighborLists(models);
    for i := 0 to n
      invariant forall x :: 0 <= x < n ==> models[x].neighbors == base[x] + BeforeRow(models, polygons, eps, x, i)
      invariant forall x :: 0 <= x < n ==> models[x].state == old(models[x].state)
    {
      forall x | 0 <= x < n {
        RowBoundaries(models, polygons, eps, i, x);
      }
      LinkRow(models, polygons, eps, i, base);
    }
  }
}
