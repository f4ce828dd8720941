/** `GameController`: the unlocking game over the cell graph. One cell is
    current; its neighbours that are not opened are available; clicking an
    available cell opens it and makes it current; the game is won once as
    many cells are opened as there are cells. */
module GameControllers {
  import opened CellModels
  import opened Geometry
  import opened UnityRandom
  import MapGeneration
  import CellGraphBuilder

  /** The states of `cells`, in order. */
  function States(cells: seq<CellModel>): (r: seq<CellState>)
    reads cells
    ensures |r| == |cells| && forall i :: 0 <= i < |cells| ==> r[i] == cells[i].state
  {
    if cells == [] then [] else States(cells[..|cells| - 1]) + [cells[|cells| - 1].state]
  }

  /** How many of `states` are `Opened`. */
  function CountOpened(states: seq<CellState>): (n: nat)
    ensures n <= |states|
  {
    if states == [] then 0
    else CountOpened(states[..|states| - 1]) + (if states[|states| - 1] == Opened then 1 else 0)
  }

  /** Every state is `Opened` exactly when all of them are counted. */
  lemma {:induction false} CountOpenedAll(states: seq<CellState>)
    ensures CountOpened(states) == |states| <==> forall i :: 0 <= i < |states| ==> states[i] == Opened
  {
    if states != [] {
      var init := states[..|states| - 1];
      CountOpenedAll(init);
      assert forall i :: 0 <= i < |init| ==> init[i] == states[i];
    }
  }

  /** The count only depends on which entries are `Opened`. */
  lemma {:induction false} CountOpenedSame(a: seq<CellState>, b: seq<CellState>)
    requires |a| == |b| && forall i :: 0 <= i < |a| ==> (a[i] == Opened <==> b[i] == Opened)
    ensures CountOpened(a) == CountOpened(b)
  {
    if a != [] {
      CountOpenedSame(a[..|a| - 1], b[..|b| - 1]);
    }
  }

  /** Opening one more entry, and changing nothing else's openness, adds one. */
  lemma {:induction false} CountOpenedOneMore(a: seq<CellState>, b: seq<CellState>, k: nat)
    requires |a| == |b| && k < |a| && a[k] != Opened && b[k] == Opened
    requires forall i :: 0 <= i < |a| && i != k ==> (a[i] == Opened <==> b[i] == Opened)
    ensures CountOpened(b) == CountOpened(a) + 1
  {
    var n := |a| - 1;
    if k == n {
      CountOpenedSame(a[..n], b[..n]);
    } else {
      CountOpenedOneMore(a[..n], b[..n], k);
    }
  }

  /** Exactly one entry `Opened` counts one. */
  lemma {:induction false} CountOpenedSingle(a: seq<CellState>, k: nat)
    requires k < |a| && a[k] == Opened && forall i :: 0 <= i < |a| && i != k ==> a[i] != Opened
    ensures CountOpened(a) == 1
  {
    var none := seq(|a|, i => Locked);
    CountOpenedOneMore(none, a, k);
    CountOpenedZero(none);
  }

  /** An `Opened` entry is counted. */
  lemma {:induction false} CountOpenedPositive(a: seq<CellState>, k: nat)
    requires k < |a| && a[k] == Opened
    ensures 1 <= CountOpened(a)
  {
    if k < |a| - 1 {
      CountOpenedPositive(a[..|a| - 1], k);
    }
  }

  /** With one entry `Opened`, the count lies between 1 and the length, and
      reaches the length exactly when every entry is `Opened`. */
  lemma CountOpenedBounds(states: seq<CellState>, k: nat)
    requires k < |states| && states[k] == Opened
    ensures 1 <= CountOpened(states) <= |states|
    ensures CountOpened(states) >= |states| <==> forall i :: 0 <= i < |states| ==> states[i] == Opened
  {
    CountOpenedPositive(states, k);
    CountOpenedAll(states);
  }

  /** No entry `Opened` counts zero. */
  lemma {:induction false} CountOpenedZero(a: seq<CellState>)
    requires forall i :: 0 <= i < |a| ==> a[i] != Opened
    ensures CountOpened(a) == 0
  {
    if a != [] {
      CountOpenedZero(a[..|a| - 1]);
    }
  }

  /** A cell's state after `UpdateAvailable`: a neighbour of the current cell
      that is not opened becomes available; any other available cell of the
      map is locked again; everything else keeps its state. */
  function Refreshed(s: CellState, inCells: bool, isNeighbor: bool): (r: CellState)
    ensures s == Opened <==> r == Opened
    ensures r == Available <==> (isNeighbor && s != Opened) || (!inCells && s == Available)
  {
    if isNeighbor && s != Opened then Available
    else if inCells && s == Available then Locked
    else s
  }

  /** The neighbours of `c`, none for no cell. */
  function NeighborsOf(c: CellModel?): seq<CellModel>
    reads if c == null then {} else {c}
  {
    if c == null then [] else c.neighbors
  }

  /** Every neighbour of a cell of `cells` is itself in `cells`. */
  ghost predicate Closed(cells: seq<CellModel>)
    reads cells`neighbors
  {
    forall i, n :: 0 <= i < |cells| && n in cells[i].neighbors ==> n in cells
  }

  /** The first loop of `Init`: every cell is locked. */
  method LockAll(cells: seq<CellModel>)
    modifies cells`state
    ensures forall c :: c in cells ==> c.state == Locked
  {
    for i := 0 to |cells|
      invariant forall c :: c in cells[..i] ==> c.state == Locked
    {
      cells[i].state := Locked;
    }
  }

  /** The first loop of `UpdateAvailable`: every available cell is locked again. */
  method LockAvailable(cells: seq<CellModel>)
    modifies cells`state
    ensures forall c :: c in cells ==> c.state == if old(c.state) == Available then Locked else old(c.state)
  {
    for i := 0 to |cells|
      invariant forall c :: c in cells ==>
        c.state == if c in cells[..i] && old(c.state) == Available then Locked else old(c.state)
    {
      if cells[i].state == Available {
        cells[i].state := Locked;
      }
    }
  }

  /** The second loop of `UpdateAvailable`: every neighbour that is not opened becomes available. */
  method MakeAvailable(nbrs: seq<CellModel>)
    modifies nbrs`state
    ensures forall c :: c in nbrs ==> c.state == if old(c.state) == Opened then Opened else Available
  {
    for i := 0 to |nbrs|
      invariant forall c :: c in nbrs ==>
        c.state == if c in nbrs[..i] && old(c.state) != Opened then Available else old(c.state)
    {
      var neighbor := nbrs[i];
      if !neighbor.IsOpened() {
        neighbor.state := Available;
      }
    }
  }

  class GameController {
    var cells: seq<CellModel>
    var openedCount: int
    var currentCell: CellModel?

    constructor()
      ensures cells == [] && openedCount == 0 && currentCell == null
    {
      cells := [];
      openedCount := 0;
      currentCell := null;
    }

    /** The game's invariant on a closed map of distinct cells: the current
        cell is opened, `openedCount` (the source's `_opened`) counts the opened
        cells, and the available cells are exactly the current cell's
        neighbours that are not opened. */
    ghost predicate Valid()
      reads this, cells
    {
      && Distinct(cells)
      && Closed(cells)
      && currentCell != null && currentCell in cells && currentCell.state == Opened
      && openedCount == CountOpened(States(cells))
      && forall i :: 0 <= i < |cells| ==>
           (cells[i].state == Available <==> cells[i] in currentCell.neighbors && cells[i].state != Opened)
    }

    /** `Init`: take the new cells, lock every one of them, open `start`,
        make it current with a count of one, and refresh the available cells.
        A missing start cell throws once the cells are locked (`thrown`),
        leaving the current cell and the count as they were. */
    method Init(newCells: seq<CellModel>, start: CellModel?) returns (thrown: bool)
      modifies this, newCells`state, (if start == null then {} else {start})`state, NeighborsOf(start)`state
      ensures cells == newCells
      ensures thrown <==> start == null
      ensures thrown ==> currentCell == old(currentCell) && openedCount == old(openedCount)
      ensures thrown ==> forall c :: c in newCells ==> c.state == Locked
      ensures !thrown ==> currentCell == start && openedCount == 1 && start.state == Opened
      ensures !thrown ==> forall c :: c in newCells && c != start ==>
        c.state == if c in start.neighbors then Available else Locked
      ensures !thrown ==> forall c :: c in start.neighbors && c !in newCells && c != start ==>
        c.state == if old(c.state) == Opened then Opened else Available
      ensures !thrown && start in newCells && Distinct(newCells) && Closed(newCells) ==> Valid()
    {
      hide Valid, Closed;
      cells := newCells;
      LockAll(newCells);
      if start == null {
        return true;
      }
      start.state := Opened;
      currentCell := start;
      openedCount := 1;
      UpdateAvailable();
      thrown := false;
      if start in newCells && Distinct(newCells) && Closed(newCells) {
        var k :| 0 <= k < |newCells| && newCells[k] == start;
        ValidAfterInit(k);
      }
    }

    /** `OnGenerateMapClicked`: generate a new map and start a game on it.
        `Init` throws exactly when the map has no cells; otherwise the game
        starts valid with one opened cell. */
    method OnGenerateMapClicked(generator: MapGeneration.MapGenerator, position: Point, boundary: seq<Point>,
                                clip: (seq<Point>, nat) -> seq<Point>, seeded: Rng, m: MathOracles)
      returns (thrown: bool, rngOut: Rng)
      requires 0.0 < generator.config.minSiteDistance && IsSqrt(m.sqrt)
      modifies this, generator
      ensures thrown <==> |generator.generatedPieces| == 0
      ensures !thrown ==> Valid() && openedCount == 1 && |cells| == |generator.generatedPieces|
    {
      hide CellGraphBuilder.Links, MapGeneration.Polygons, Valid;
      var controllers, startCell;
      controllers, startCell, rngOut := generator.GenerateMap(position, boundary, clip, seeded, m);
      assert fresh(set c | c in controllers);
      if startCell != null {
        assert forall c :: c in NeighborsOf(startCell) ==> c in controllers;
        assert fresh(set c | c in NeighborsOf(startCell));
      }
      assert Closed(controllers);
      ghost var pieces := |generator.generatedPieces|;
      thrown := Init(controllers, startCell);
      assert pieces == |generator.generatedPieces|;
    }

    /** `UpdateAvailable`: lock every available cell of the map, then make
        each neighbour of the current cell that is not opened available. */
    method UpdateAvailable()
      modifies cells`state, NeighborsOf(currentCell)`state
      ensures forall c :: c in cells || c in NeighborsOf(currentCell) ==>
        c.state == Refreshed(old(c.state), c in cells, c in NeighborsOf(currentCell))
    {
      var nbrs := NeighborsOf(currentCell);
      LockAvailable(cells);
      if currentCell == null {
        return;
      }
      MakeAvailable(nbrs);
    }

    /** `OnCellClicked`: a click on a cell that is not available changes
        nothing; an available cell is opened, counted and made current, the
        available cells are refreshed around it, and the win check reports
        whether the count has reached the number of cells. */
    method OnCellClicked(cell: CellModel) returns (won: bool)
      modifies this, cells`state, {cell}`state, cell.neighbors`state
      ensures cells == old(cells)
      ensures old(cell.state) != Available ==>
        !won && currentCell == old(currentCell) && openedCount == old(openedCount)
      ensures old(cell.state) != Available ==> forall c :: c in cells ==> c.state == old(c.state)
      ensures old(cell.state) == Available ==>
        && cell.state == Opened && currentCell == cell && openedCount == old(openedCount) + 1
        && (won <==> openedCount >= |cells|)
        && forall c :: (c in cells || c in cell.neighbors) && c != cell ==>
             c.state == Refreshed(old(c.state), c in cells, c in cell.neighbors)
      ensures forall c :: c in cells && old(c.state) == Opened ==> c.state == Opened
      ensures old(Valid()) && cell in cells ==> Valid()
      ensures old(Valid()) && cell in cells && old(cell.state) == Available ==>
        (won <==> forall i :: 0 <= i < |cells| ==> cells[i].state == Opened)
    {
      hide Valid, States, CountOpened, Refreshed;
      if cell.state != Available {
        return false;
      }
      ghost var before := States(cells);
      ghost var wasValid := Valid();
      if wasValid {
        var _ := ValidParts();
      }
      Open(cell);
      if wasValid && cell in cells {
        var k :| 0 <= k < |cells| && cells[k] == cell;
        forall i | 0 <= i < |cells| && i != k
          ensures cells[i].state == Refreshed(before[i], true, cells[i] in cell.neighbors)
        {
          assert cells[i] in cells && cells[i] != cell;
        }
        ValidAfterOpen(before, k);
      }
      won := CheckWin();
    }

    /** The opening step of `OnCellClicked`. */
    method Open(cell: CellModel)
      requires cell.state == Available
      modifies this, cells`state, {cell}`state, cell.neighbors`state
      ensures cells == old(cells) && cell.state == Opened && currentCell == cell
      ensures openedCount == old(openedCount) + 1
      ensures forall c :: (c in cells || c in cell.neighbors) && c != cell ==>
        c.state == Refreshed(old(c.state), c in cells, c in cell.neighbors)
    {
      cell.state := Opened;
      openedCount := openedCount + 1;
      currentCell := cell;
      UpdateAvailable();
    }

    /** The parts of `Valid` an opening click relies on. */
    lemma ValidParts() returns (k: nat)
      requires Valid()
      ensures Distinct(cells) && Closed(cells) && openedCount == CountOpened(States(cells))
      ensures k < |cells| && cells[k] == currentCell && cells[k].state == Opened
    {
      k :| k < |cells| && cells[k] == currentCell;
    }

    /** After `Init`: the start cell is the only opened one, and the others
        are available exactly when they neighbour it. */
    lemma ValidAfterInit(k: nat)
      requires Distinct(cells) && Closed(cells) && k < |cells| && currentCell == cells[k]
      requires currentCell.state == Opened && openedCount == 1
      requires forall i :: 0 <= i < |cells| && i != k ==>
        cells[i].state != Opened && (cells[i].state == Available <==> cells[i] in currentCell.neighbors)
      ensures Valid()
    {
      CountOpenedSingle(States(cells), k);
    }

    /** After an opening click: cell `k` went from not opened to opened and
        current, no other cell changed whether it is opened, and the count
        went up by one. */
    lemma ValidAfterOpen(before: seq<CellState>, k: nat)
      requires Distinct(cells) && Closed(cells) && k < |cells| && currentCell == cells[k]
      requires currentCell.state == Opened && |before| == |cells| && before[k] != Opened
      requires openedCount == CountOpened(before) + 1
      requires forall i :: 0 <= i < |cells| && i != k ==>
        && (cells[i].state == Opened <==> before[i] == Opened)
        && (cells[i].state == Available <==> cells[i] in currentCell.neighbors && cells[i].state != Opened)
      ensures Valid()
    {
      CountOpenedOneMore(before, States(cells), k);
    }

    /** `CheckWin`: the win screen is shown once `openedCount` reaches the
        number of cells, which in a valid game is exactly when every cell is
        opened. */
    method CheckWin() returns (shown: bool)
      ensures shown <==> openedCount >= |cells|
      ensures Valid() ==> (shown <==> forall i :: 0 <= i < |cells| ==> cells[i].state == Opened)
    {
      if Valid() {
        WinMeansAllOpened();
      }
      if openedCount < |cells| {
        return false;
      }
      return true;
    }

    /** On a valid game the count never exceeds the number of cells, and
        reaching it means every cell is opened. */
    lemma WinMeansAllOpened()
      requires Valid()
      ensures 1 <= openedCount <= |cells|
      ensures openedCount >= |cells| <==> forall i :: 0 <= i < |cells| ==> cells[i].state == Opened
    {
      hide Valid;
      var k := ValidParts();
      CountOpenedBounds(States(cells), k);
    }
  }
}
