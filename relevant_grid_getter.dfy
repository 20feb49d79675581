/**
 * Selection of the grid cells that matter for the flood decision: the cells
 * of the river that touch dry land ("river border"), and the cells a flood
 * starting from them can reach below the critical elevation.
 */
module RelevantGridGetter {
  import opened RasterGrid

  // ---------------------------------------------------------------------
  // The 4-neighbourhood
  // ---------------------------------------------------------------------

  /** The 4-neighbours of node `id`, in the order up, down, left, right. */
  function Neighbors4(rows: nat, cols: nat, id: int): seq<int>
    requires cols > 0
  {
    var row, col := RowOf(cols, id), ColOf(cols, id);
    (if row > 0 then [id - cols] else [])
    + (if row < rows - 1 then [id + cols] else [])
    + (if col > 0 then [id - 1] else [])
    + (if col < cols - 1 then [id + 1] else [])
  }

  /** Two grid positions are 4-adjacent: same row and neighbouring columns, or
      same column and neighbouring rows. */
  predicate Adjacent4(r1: int, c1: int, r2: int, c2: int) {
    || (r1 == r2 && (c1 - c2 == 1 || c2 - c1 == 1))
    || (c1 == c2 && (r1 - r2 == 1 || r2 - r1 == 1))
  }

  /** At most four neighbours, pairwise distinct, each one inside the grid and
      one row or one column away, never wrapping from one row to the next. */
  lemma Neighbors4Shape(rows: nat, cols: nat, id: int)
    requires InGrid(rows, cols, id)
    ensures cols > 0
    ensures |Neighbors4(rows, cols, id)| <= 4
    ensures forall i, j :: 0 <= i < j < |Neighbors4(rows, cols, id)| ==>
              Neighbors4(rows, cols, id)[i] != Neighbors4(rows, cols, id)[j]
    ensures forall n :: n in Neighbors4(rows, cols, id) ==>
              && InGrid(rows, cols, n)
              && (|| n == id - cols || n == id + cols
                  || (n == id - 1 && RowOf(cols, n) == RowOf(cols, id))
                  || (n == id + 1 && RowOf(cols, n) == RowOf(cols, id)))
  {
    IndexCell(rows, cols, id);
    var row, col := RowOf(cols, id), ColOf(cols, id);
    if row > 0 { CellIndex(rows, cols, row - 1, col); assert (row - 1) * cols + col == id - cols; }
    if row < rows - 1 { CellIndex(rows, cols, row + 1, col); assert (row + 1) * cols + col == id + cols; }
    if col > 0 { CellIndex(rows, cols, row, col - 1); }
    if col < cols - 1 { CellIndex(rows, cols, row, col + 1); }
  }

  /** Membership in the 4-neighbourhood is exactly 4-adjacency of grid
      positions, for nodes inside the grid. */
  lemma Neighbors4Adjacent(rows: nat, cols: nat, m: int, n: int)
    requires InGrid(rows, cols, m)
    ensures cols > 0
    ensures n in Neighbors4(rows, cols, m) <==>
              InGrid(rows, cols, n) && Adjacent4(RowOf(cols, m), ColOf(cols, m), RowOf(cols, n), ColOf(cols, n))
  {
    IndexCell(rows, cols, m);
    if n in Neighbors4(rows, cols, m) {
      NeighborIsAdjacent(rows, cols, m, n);
    }
    if InGrid(rows, cols, n) && Adjacent4(RowOf(cols, m), ColOf(cols, m), RowOf(cols, n), ColOf(cols, n)) {
      AdjacentIsNeighbor(rows, cols, m, n);
    }
  }

  lemma NeighborIsAdjacent(rows: nat, cols: nat, m: int, n: int)
    requires InGrid(rows, cols, m) && cols > 0 && n in Neighbors4(rows, cols, m)
    ensures InGrid(rows, cols, n) && Adjacent4(RowOf(cols, m), ColOf(cols, m), RowOf(cols, n), ColOf(cols, n))
  {
    IndexCell(rows, cols, m);
    var rm, cm := RowOf(cols, m), ColOf(cols, m);
    if rm > 0 && n == m - cols {
      Shifted(rows, cols, m, -1, 0, n);
    } else if rm < rows - 1 && n == m + cols {
      Shifted(rows, cols, m, 1, 0, n);
    } else if cm > 0 && n == m - 1 {
      Shifted(rows, cols, m, 0, -1, n);
    } else {
      assert cm < cols - 1 && n == m + 1;
      Shifted(rows, cols, m, 0, 1, n);
    }
  }

  lemma AdjacentIsNeighbor(rows: nat, cols: nat, m: int, n: int)
    requires InGrid(rows, cols, m) && InGrid(rows, cols, n) && cols > 0
    requires Adjacent4(RowOf(cols, m), ColOf(cols, m), RowOf(cols, n), ColOf(cols, n))
    ensures n in Neighbors4(rows, cols, m)
  {
    IndexCell(rows, cols, m);
    IndexCell(rows, cols, n);
    var rm, cm, rn, cn := RowOf(cols, m), ColOf(cols, m), RowOf(cols, n), ColOf(cols, n);
    if rn == rm - 1 {
      assert n == (rm - 1) * cols + cm == m - cols;
    } else if rn == rm + 1 {
      assert n == (rm + 1) * cols + cm == m + cols;
    } else if cn == cm - 1 {
      assert n == m - 1;
    } else {
      assert n == m + 1;
    }
  }

  /** The 4-neighbour relation is symmetric. */
  lemma Neighbors4Symmetric(rows: nat, cols: nat, m: int, n: int)
    requires InGrid(rows, cols, m) && InGrid(rows, cols, n)
    ensures cols > 0
    ensures n in Neighbors4(rows, cols, m) <==> m in Neighbors4(rows, cols, n)
  {
    Neighbors4Adjacent(rows, cols, m, n);
    Neighbors4Adjacent(rows, cols, n, m);
  }

  // ---------------------------------------------------------------------
  // River border
  // ---------------------------------------------------------------------

  /** The 4-neighbours of a node inside the grid, all of them inside it. */
  function GridNeighbors(rows: nat, cols: nat, c: int): (r: seq<int>)
    requires InGrid(rows, cols, c)
    ensures cols > 0 && r == Neighbors4(rows, cols, c)
    ensures forall j :: 0 <= j < |r| ==> InGrid(rows, cols, r[j])
  {
    Neighbors4Shape(rows, cols, c);
    Neighbors4(rows, cols, c)
  }

  /** One of the first `k` cells of `nbs` lies outside the river. */
  predicate SomeDry(river: seq<int>, nbs: seq<int>, k: int)
    requires 0 <= k <= |nbs| && forall j :: 0 <= j < |nbs| ==> 0 <= nbs[j] < |river|
  {
    exists j :: 0 <= j < k && river[nbs[j]] == 0
  }

  /** A river cell with at least one 4-neighbour outside the river. */
  predicate IsRiverBorder(rows: nat, cols: nat, river: seq<int>, c: int)
    requires |river| == rows * cols && InGrid(rows, cols, c)
  {
    var nbs := GridNeighbors(rows, cols, c);
    river[c] > 0 && SomeDry(river, nbs, |nbs|)
  }

  // ---------------------------------------------------------------------
  // Relevance: the fixed point of the worklist propagation
  // ---------------------------------------------------------------------

  /** What the propagation reads: the grid's static fields and the river border
      as it stands when the propagation starts. */
  datatype Terrain = Terrain(rows: nat, cols: nat, elevation: seq<real>, river: seq<int>,
                             buildingIds: seq<int>, border: seq<int>)
  {
    ghost predicate WellFormed() {
      && |elevation| == |river| == |buildingIds| == |border| == rows * cols
      && forall c :: 0 <= c < |border| ==> border[c] == 0 || border[c] == 1
    }

    predicate Cell(c: int) {
      0 <= c < |border|
    }

    function Neighbors(c: int): (r: seq<int>)
      requires WellFormed() && Cell(c)
      ensures forall j :: 0 <= j < |r| ==> Cell(r[j])
    {
      GridNeighbors(rows, cols, c)
    }
  }

  /** The elevation up to which the flood spreads: the river level plus the
      threshold. */
  function CriticalHeight(riverHeight: real, elevationThreshold: real): real {
    riverHeight + elevationThreshold
  }

  /** The cell lies at or below the critical elevation, so a popped cell is
      assigned a value and may spread further. */
  predicate Open(t: Terrain, critical: real, c: int)
    requires t.WellFormed() && t.Cell(c)
  {
    t.elevation[c] <= critical
  }

  /** Some 4-neighbour carries no building. */
  predicate HasNonBuildingNeighbor(t: Terrain, c: int)
    requires t.WellFormed() && t.Cell(c)
  {
    exists j :: 0 <= j < |t.Neighbors(c)| && t.buildingIds[t.Neighbors(c)[j]] == 0
  }

  /** The value an open cell receives when it is popped: 0 inside the river
      (river count above the border flag), 0 inside a building footprint
      (every 4-neighbour a building), 1 otherwise.  It depends only on fields
      the propagation never writes. */
  function Value(t: Terrain, c: int): (v: int)
    requires t.WellFormed() && t.Cell(c)
    ensures v == 0 || v == 1
  {
    if t.river[c] - t.border[c] > 0 then 0
    else if t.buildingIds[c] > 0 && !HasNonBuildingNeighbor(t, c) then 0
    else 1
  }

  /** A popped cell that is open and receives value 1 pushes its neighbours. */
  predicate Expands(t: Terrain, critical: real, c: int)
    requires t.WellFormed() && t.Cell(c)
  {
    Open(t, critical, c) && Value(t, c) == 1
  }

  /** The flood spreads from `x` to its 4-neighbour `y`. */
  predicate Link(t: Terrain, critical: real, x: int, y: int)
    requires t.WellFormed()
  {
    t.Cell(x) && Expands(t, critical, x) && y in t.Neighbors(x)
  }

  /** `p` is a walk of 4-adjacent cells from a river-border cell to `c` whose
      every cell but the last expands. */
  ghost predicate IsPathTo(t: Terrain, critical: real, p: seq<int>, c: int)
    requires t.WellFormed()
  {
    && |p| > 0 && p[|p| - 1] == c
    && (forall i :: 0 <= i < |p| ==> t.Cell(p[i]))
    && t.border[p[0]] == 1
    && (forall i :: 0 <= i < |p| - 1 ==> Link(t, critical, p[i], p[i + 1]))
  }

  /** The cells the propagation pops: those at the end of such a walk. */
  ghost predicate Reached(t: Terrain, critical: real, c: int)
    requires t.WellFormed()
  {
    exists p :: IsPathTo(t, critical, p, c)
  }

  /** The `relevant` field once the worklist is empty: a reached open cell
      holds its value, every other cell keeps its river-border flag. */
  ghost function FinalRelevant(t: Terrain, critical: real, c: int): int
    requires t.WellFormed() && t.Cell(c)
  {
    if Reached(t, critical, c) && Open(t, critical, c) then Value(t, c) else t.border[c]
  }

  /** The whole `relevant` field once the worklist is empty. */
  ghost function FinalField(t: Terrain, critical: real): (r: seq<int>)
    requires t.WellFormed()
    ensures |r| == |t.border|
    ensures forall c :: 0 <= c < |r| ==> r[c] == FinalRelevant(t, critical, c)
  {
    seq(|t.border|, c requires 0 <= c < |t.border| => FinalRelevant(t, critical, c))
  }

  /** Every river-border cell is reached: the walk of length one. */
  lemma BorderReached(t: Terrain, critical: real, c: int)
    requires t.WellFormed() && t.Cell(c) && t.border[c] == 1
    ensures Reached(t, critical, c)
  {
    assert IsPathTo(t, critical, [c], c);
  }

  /** The reached region is closed: every 4-neighbour of a reached cell that
      expands is reached too. */
  lemma ReachedClosed(t: Terrain, critical: real, x: int, m: int)
    requires t.WellFormed() && t.Cell(x) && Reached(t, critical, x) && Expands(t, critical, x)
    requires m in t.Neighbors(x)
    ensures Reached(t, critical, m)
  {
    var p :| IsPathTo(t, critical, p, x);
    var q := p + [m];
    assert forall i :: 0 <= i < |p| ==> q[i] == p[i];
    assert IsPathTo(t, critical, q, m);
  }

  /** A set of cells that holds every river-border cell and every 4-neighbour
      of its expanding cells holds every reached cell. */
  lemma {:induction false} ClosedSetHoldsReached(t: Terrain, critical: real, s: set<int>, p: seq<int>, c: int)
    requires t.WellFormed()
    requires forall b :: t.Cell(b) && t.border[b] == 1 ==> b in s
    requires forall x, m :: x in s && t.Cell(x) && Expands(t, critical, x) && m in t.Neighbors(x) ==> m in s
    requires IsPathTo(t, critical, p, c)
    ensures c in s
    decreases |p|
  {
    if |p| == 1 {
      assert t.Cell(p[0]) && t.border[p[0]] == 1;
    } else {
      var k := |p| - 2;
      var p' := p[..k + 1];
      assert Link(t, critical, p[k], p[k + 1]);
      PathPrefix(t, critical, p);
      ClosedSetHoldsReached(t, critical, s, p', p[k]);
    }
  }

  lemma PathPrefix(t: Terrain, critical: real, p: seq<int>)
    requires t.WellFormed() && |p| > 1 && IsPathTo(t, critical, p, p[|p| - 1])
    ensures IsPathTo(t, critical, p[..|p| - 1], p[|p| - 2])
  {
  }

  /** What the final field says, cell by cell: values are 0 or 1; a cell
      outside the river border is relevant exactly when it is reached, open
      and of value 1; a river-border cell stays relevant unless it is open and
      of value 0. */
  lemma FinalRelevantMeaning(t: Terrain, critical: real, c: int)
    requires t.WellFormed() && t.Cell(c)
    ensures FinalRelevant(t, critical, c) == 0 || FinalRelevant(t, critical, c) == 1
    ensures t.border[c] == 0 ==>
              (FinalRelevant(t, critical, c) == 1 <==> Reached(t, critical, c) && Expands(t, critical, c))
    ensures t.border[c] == 1 ==>
              (FinalRelevant(t, critical, c) == 0 <==> Open(t, critical, c) && Value(t, c) == 0)
  {
    if t.border[c] == 1 {
      BorderReached(t, critical, c);
    }
  }

  /** A cell off the river border above the critical elevation never becomes
      relevant, and neither does the interior of a building footprint. */
  lemma NotRelevantCells(t: Terrain, critical: real, c: int)
    requires t.WellFormed() && t.Cell(c) && t.border[c] == 0
    requires t.elevation[c] > critical || (t.buildingIds[c] > 0 && !HasNonBuildingNeighbor(t, c))
    ensures FinalRelevant(t, critical, c) == 0
  {
  }

  /** Without river-border cells nothing is reached and nothing is relevant. */
  lemma NoBorderNothingRelevant(t: Terrain, critical: real, c: int)
    requires t.WellFormed() && t.Cell(c)
    requires forall b :: 0 <= b < |t.border| ==> t.border[b] == 0
    ensures !Reached(t, critical, c) && FinalRelevant(t, critical, c) == 0
  {
  }

  /** Popped and queued cells are reached.  (Membership alone does not
      unfold `Reached`: each such unfolding names a new walk.) */
  ghost predicate AllReached(t: Terrain, critical: real, s: set<int>)
    requires t.WellFormed()
  {
    && (forall c :: c in s ==> t.Cell(c))
    && (forall c {:trigger Reached(t, critical, c)} :: c in s ==> Reached(t, critical, c))
  }

  /** `expanded` are exactly the popped cells that expand. */
  ghost predicate ExpandedPopped(t: Terrain, critical: real, done: set<int>, expanded: set<int>)
    requires t.WellFormed()
  {
    forall x :: x in expanded <==> x in done && t.Cell(x) && Expands(t, critical, x)
  }

  /** A popped open cell holds its value, every other cell its border flag. */
  ghost predicate FieldSoFar(t: Terrain, critical: real, rel: seq<int>, done: set<int>)
    requires t.WellFormed()
  {
    && |rel| == |t.border|
    && forall c :: 0 <= c < |rel| ==>
         rel[c] == if c in done && Open(t, critical, c) then Value(t, c) else t.border[c]
  }

  /** Every river-border cell and every 4-neighbour of an expanded cell has
      been popped or is queued. */
  ghost predicate Covered(t: Terrain, critical: real, done: set<int>, expanded: set<int>, queue: set<int>)
    requires t.WellFormed()
  {
    && (forall c :: 0 <= c < |t.border| && t.border[c] == 1 ==> c in done || c in queue)
    && (forall x, m :: x in expanded && t.Cell(x) && m in t.Neighbors(x) ==> m in done || m in queue)
  }

  /**
   * What holds between two pops of the worklist: `done` are the popped cells,
   * `expanded` those among them that pushed their neighbours, `rel` the
   * `relevant` field.
   */
  ghost predicate Progress(t: Terrain, critical: real, rel: seq<int>,
                           done: set<int>, expanded: set<int>, queue: set<int>)
    requires t.WellFormed()
  {
    && AllReached(t, critical, done + queue)
    && ExpandedPopped(t, critical, done, expanded)
    && (forall x :: x in queue ==> x !in expanded)
    && FieldSoFar(t, critical, rel, done)
    && Covered(t, critical, done, expanded, queue)
  }

  /** The propagation starts with the river border queued and nothing popped. */
  lemma ProgressInit(t: Terrain, critical: real, queue: set<int>)
    requires t.WellFormed()
    requires forall c :: c in queue <==> 0 <= c < |t.border| && t.border[c] == 1
    ensures Progress(t, critical, t.border, {}, {}, queue)
  {
    forall c | c in queue
      ensures t.Cell(c) && Reached(t, critical, c)
    {
      BorderReached(t, critical, c);
    }
    assert {} + queue == queue;
  }

  /** The field after visiting popped `node`: an open node receives its
      value. */
  ghost function FieldAfterVisit(t: Terrain, critical: real, rel: seq<int>, node: int): (r: seq<int>)
    requires t.WellFormed() && t.Cell(node) && |rel| == |t.border|
    ensures |r| == |rel|
    ensures forall c :: 0 <= c < |r| && c != node ==> r[c] == rel[c]
    ensures r[node] == if Open(t, critical, node) then Value(t, node) else rel[node]
  {
    if Open(t, critical, node) then rel[node := Value(t, node)] else rel
  }

  /** The worklist after visiting popped `node`: the rest of the queue and,
      when `node` expands, its neighbours whose field reads 0 after the write. */
  ghost predicate QueueAfterPop(t: Terrain, critical: real, rest: set<int>, node: int,
                                rel': seq<int>, queue': set<int>)
    requires t.WellFormed() && t.Cell(node)
  {
    forall x :: x in queue' <==>
      || x in rest
      || (Expands(t, critical, node) && x in t.Neighbors(node) && 0 <= x < |rel'| && rel'[x] == 0)
  }

  lemma StepReached(t: Terrain, critical: real, done: set<int>, queue: set<int>, node: int,
                    rel': seq<int>, queue': set<int>)
    requires t.WellFormed() && AllReached(t, critical, done + queue) && node in queue
    requires t.Cell(node) && QueueAfterPop(t, critical, queue - {node}, node, rel', queue')
    ensures AllReached(t, critical, done + {node} + queue')
  {
    forall c | c in done + {node} + queue'
      ensures t.Cell(c) && Reached(t, critical, c)
    {
      if c !in done + queue {
        ReachedClosed(t, critical, node, c);
      }
    }
  }

  lemma StepField(t: Terrain, critical: real, rel: seq<int>, done: set<int>, node: int, rel': seq<int>)
    requires t.WellFormed() && FieldSoFar(t, critical, rel, done) && t.Cell(node)
    requires |rel| == |t.border| && rel' == FieldAfterVisit(t, critical, rel, node)
    ensures FieldSoFar(t, critical, rel', done + {node})
  {
  }

  lemma StepQueue(t: Terrain, critical: real, rel': seq<int>, done: set<int>, expanded: set<int>,
                  queue: set<int>, node: int, queue': set<int>)
    requires t.WellFormed() && t.Cell(node) && node in queue
    requires ExpandedPopped(t, critical, done, expanded) && (forall x :: x in queue ==> x !in expanded)
    requires FieldSoFar(t, critical, rel', done + {node})
    requires QueueAfterPop(t, critical, queue - {node}, node, rel', queue')
    ensures forall x :: x in queue' ==>
              x !in (if Expands(t, critical, node) then expanded + {node} else expanded)
  {
    forall x | x in queue'
      ensures x !in (if Expands(t, critical, node) then expanded + {node} else expanded)
    {
      if x !in queue || x == node {
        // a neighbour queued with field 0: an expanded cell's field reads 1
        assert rel'[x] == 0;
      }
    }
  }

  lemma StepCovered(t: Terrain, critical: real, rel': seq<int>, done: set<int>, expanded: set<int>,
                    queue: set<int>, node: int, queue': set<int>)
    requires t.WellFormed() && t.Cell(node) && node in queue
    requires Covered(t, critical, done, expanded, queue)
    requires FieldSoFar(t, critical, rel', done + {node})
    requires QueueAfterPop(t, critical, queue - {node}, node, rel', queue')
    ensures Covered(t, critical, done + {node},
                    if Expands(t, critical, node) then expanded + {node} else expanded, queue')
  {
    var expanded' := if Expands(t, critical, node) then expanded + {node} else expanded;
    forall x, m | x in expanded' && t.Cell(x) && m in t.Neighbors(x)
      ensures m in done + {node} || m in queue'
    {
      if x == node && m !in done + {node} && rel'[m] != 0 {
        // a neighbour whose field reads 1 is a river-border cell
        assert t.border[m] == 1;
      }
    }
  }

  /** One pop keeps the invariant: an open cell receives its value, and a cell
      of value 1 queues every neighbour whose field still reads 0. */
  lemma ProgressStep(t: Terrain, critical: real, rel: seq<int>, done: set<int>, expanded: set<int>,
                     queue: set<int>, node: int, rel': seq<int>, queue': set<int>)
    requires t.WellFormed() && Progress(t, critical, rel, done, expanded, queue)
    requires node in queue && t.Cell(node)
    requires |rel| == |t.border| && rel' == FieldAfterVisit(t, critical, rel, node)
    requires QueueAfterPop(t, critical, queue - {node}, node, rel', queue')
    ensures Progress(t, critical, rel', done + {node},
                     if Expands(t, critical, node) then expanded + {node} else expanded, queue')
  {
    StepReached(t, critical, done, queue, node, rel', queue');
    StepField(t, critical, rel, done, node, rel');
    StepQueue(t, critical, rel', done, expanded, queue, node, queue');
    StepCovered(t, critical, rel', done, expanded, queue, node, queue');
  }

  /** Once the worklist is empty the field is the fixed point `FinalRelevant`. */
  lemma ProgressDone(t: Terrain, critical: real, rel: seq<int>, done: set<int>, expanded: set<int>, queue: set<int>)
    requires t.WellFormed() && Progress(t, critical, rel, done, expanded, queue) && queue == {}
    ensures rel == FinalField(t, critical)
  {
    forall c | 0 <= c < |rel|
      ensures rel[c] == FinalRelevant(t, critical, c)
    {
      CellDone(t, critical, rel, done, expanded, queue, c);
    }
  }

  lemma CellDone(t: Terrain, critical: real, rel: seq<int>, done: set<int>, expanded: set<int>,
                 queue: set<int>, c: int)
    requires t.WellFormed() && Progress(t, critical, rel, done, expanded, queue) && queue == {}
    requires 0 <= c < |rel|
    ensures rel[c] == FinalRelevant(t, critical, c)
  {
    if Reached(t, critical, c) {
      var p :| IsPathTo(t, critical, p, c);
      ClosedSetHoldsReached(t, critical, done, p, c);
    }
  }

  /** A non-empty worklist has a node to pop. */
  lemma SomeMember(s: set<int>)
    requires s != {}
    ensures exists x :: x in s
  {
    if forall x :: x !in s {
      assert false;
    }
  }

  // ---------------------------------------------------------------------
  // The component
  // ---------------------------------------------------------------------

  /** Computes the `border_of_river` and `relevant` fields of a grid. */
  class RelevantGridGetter {
    const grid: RasterGrid

    constructor (grid: RasterGrid)
      ensures this.grid == grid
    {
      this.grid := grid;
    }

    /** The grid as the propagation reads it. */
    ghost function Snapshot(): Terrain
      reads grid, grid.borderOfRiver
    {
      Terrain(grid.rows, grid.cols, grid.elevation, grid.river, grid.buildingIds, grid.borderOfRiver[..])
    }

    /** The 4-neighbours of `nodeId`, appended up, down, left, right. */
    method GetNeighbors(nodeId: int) returns (neighbors: seq<int>)
      requires grid.cols > 0
      ensures neighbors == Neighbors4(grid.rows, grid.cols, nodeId)
    {
      var rows: int, cols: int := grid.rows, grid.cols;
      var row, col := nodeId / cols, nodeId % cols;
      neighbors := [];
      if row > 0 {
        neighbors := neighbors + [nodeId - cols];
      }
      if row < rows - 1 {
        neighbors := neighbors + [nodeId + cols];
      }
      if col > 0 {
        neighbors := neighbors + [nodeId - 1];
      }
      if col < cols - 1 {
        neighbors := neighbors + [nodeId + 1];
      }
    }

    /** Adds a zero-filled `border_of_river` field and sets it to 1 at every
        river cell with a 4-neighbour outside the river. */
    method GetBorderOfRiver()
      requires grid.Valid()
      modifies grid
      ensures grid.Valid() && fresh(grid.borderOfRiver)
      ensures grid.relevant == old(grid.relevant)
      ensures forall c :: 0 <= c < grid.NumberOfNodes() ==>
                grid.borderOfRiver[c] == if IsRiverBorder(grid.rows, grid.cols, grid.river, c) then 1 else 0
    {
      var n := grid.NumberOfNodes();
      var border := new int[n](_ => 0);
      grid.borderOfRiver := border;
      for nodeId := 0 to n
        invariant grid.borderOfRiver == border && grid.relevant == old(grid.relevant)
        invariant forall c :: 0 <= c < nodeId ==>
                    border[c] == if IsRiverBorder(grid.rows, grid.cols, grid.river, c) then 1 else 0
        invariant forall c :: nodeId <= c < n ==> border[c] == 0
      {
        if grid.river[nodeId] > 0 {
          var neighbors := GetNeighbors(nodeId);
          assert neighbors == GridNeighbors(grid.rows, grid.cols, nodeId);
          for j := 0 to |neighbors|
            invariant grid.borderOfRiver == border && grid.relevant == old(grid.relevant)
            invariant border[nodeId] == if SomeDry(grid.river, neighbors, j) then 1 else 0
            invariant forall c :: 0 <= c < nodeId ==>
                        border[c] == if IsRiverBorder(grid.rows, grid.cols, grid.river, c) then 1 else 0
            invariant forall c :: nodeId < c < n ==> border[c] == 0
          {
            if grid.river[neighbors[j]] == 0 {
              border[nodeId] := 1;
            }
          }
        }
      }
    }

    /**
     * The body of the propagation loop for one popped node: an open node
     * receives its value, and a node of value 1 adds to the worklist every
     * 4-neighbour whose `relevant` field reads 0.
     */
    method VisitNode(node: int, queue: set<int>, criticalHeight: real, ghost t: Terrain)
      returns (queue': set<int>)
      requires t == Snapshot() && t.WellFormed() && t.Cell(node)
      requires grid.relevant.Length == |t.border| && grid.relevant != grid.borderOfRiver
      modifies grid.relevant
      ensures grid.relevant[..] == FieldAfterVisit(t, criticalHeight, old(grid.relevant[..]), node)
      ensures QueueAfterPop(t, criticalHeight, queue, node, grid.relevant[..], queue')
      ensures !Expands(t, criticalHeight, node) ==> queue' == queue
    {
      IndexCell(grid.rows, grid.cols, node);
      var neighbors := GetNeighbors(node);
      assert neighbors == t.Neighbors(node);
      queue' := queue;
      var geodesicElevation := grid.elevation[node];
      if geodesicElevation <= criticalHeight {
        var value := 1;
        if grid.river[node] - grid.borderOfRiver[node] > 0 {
          value := 0;
        }
        if value == 1 && grid.buildingIds[node] > 0 {
          value := 0;
          for j := 0 to |neighbors|
            invariant forall i :: 0 <= i < j ==> grid.buildingIds[neighbors[i]] != 0
          {
            if grid.buildingIds[neighbors[j]] == 0 {
              value := 1;
              break;
            }
          }
        }
        assert value == Value(t, node);
        grid.relevant[node] := value;
        if value == 1 {
          for j := 0 to |neighbors|
            invariant forall x :: x in queue' <==>
                        x in queue || (x in neighbors[..j] && 0 <= x < grid.relevant.Length && grid.relevant[x] == 0)
          {
            if grid.relevant[neighbors[j]] == 0 {
              queue' := queue' + {neighbors[j]};
            }
          }
          assert neighbors[..|neighbors|] == neighbors;
        }
      }
    }

    /** One turn of the worklist loop: pops `node` and visits it, keeping
        `Progress`; either one more cell has expanded or the worklist has
        shrunk. */
    method PopAndVisit(node: int, queue: set<int>, criticalHeight: real, ghost t: Terrain,
                       ghost done: set<int>, ghost expanded: set<int>)
      returns (queue': set<int>, ghost done': set<int>, ghost expanded': set<int>)
      requires t == Snapshot() && t.WellFormed() && node in queue
      requires grid.relevant.Length == |t.border| && grid.relevant != grid.borderOfRiver
      requires Progress(t, criticalHeight, grid.relevant[..], done, expanded, queue)
      modifies grid.relevant
      ensures Progress(t, criticalHeight, grid.relevant[..], done', expanded', queue')
      ensures expanded' == expanded ==> queue' < queue
      ensures expanded' != expanded ==> exists x :: t.Cell(x) && x !in expanded && expanded' == expanded + {x}
    {
      assert t.Cell(node);
      ghost var rel := grid.relevant[..];
      queue' := queue - {node};
      queue' := VisitNode(node, queue', criticalHeight, t);
      ProgressStep(t, criticalHeight, rel, done, expanded, queue, node, grid.relevant[..], queue');
      expanded' := if Expands(t, criticalHeight, node) then expanded + {node} else expanded;
      done' := done + {node};
      assert node !in expanded;
    }

    /**
     * The worklist loop: pops a node, visits it, and stops when the worklist
     * is empty, leaving every cell of the field as `FinalField` says.
     */
    method Propagate(queue: set<int>, criticalHeight: real, ghost t: Terrain)
      requires t == Snapshot() && t.WellFormed()
      requires grid.relevant.Length == |t.border| && grid.relevant != grid.borderOfRiver
      requires Progress(t, criticalHeight, grid.relevant[..], {}, {}, queue)
      modifies grid.relevant
      ensures grid.relevant[..] == FinalField(t, criticalHeight)
    {
      var queue := queue;
      // ghost bookkeeping: the cells popped so far, those among them that
      // pushed their neighbours, and the whole grid
      ghost var done: set<int> := {};
      ghost var expanded: set<int> := {};
      ghost var cells := NodeSet(|t.border|);
      while queue != {}
        invariant t == Snapshot() && grid.relevant.Length == |t.border|
        invariant Progress(t, criticalHeight, grid.relevant[..], done, expanded, queue)
        invariant expanded <= cells
        decreases cells - expanded, queue
      {
        SomeMember(queue);
        var node :| node in queue;
        queue, done, expanded := PopAndVisit(node, queue, criticalHeight, t, done, expanded);
      }
      ProgressDone(t, criticalHeight, grid.relevant[..], done, expanded, queue);
    }

    /**
     * Copies `border_of_river` into a new `relevant` field and propagates
     * relevance from the river border with a worklist, popped in arbitrary
     * order.  The result is the same for every order: each cell ends as
     * `FinalRelevant` says, a function of the grid's fields alone.
     */
    method GetRelevantNodes(riverHeight: real := 380.0, elevationThreshold: real := 1.0)
      requires grid.Valid()
      modifies grid
      ensures grid.Valid() && fresh(grid.relevant)
      ensures grid.borderOfRiver == old(grid.borderOfRiver)
      ensures grid.relevant[..] == FinalField(old(Snapshot()), CriticalHeight(riverHeight, elevationThreshold))
    {
      var n := grid.NumberOfNodes();
      ghost var t := Snapshot();
      assert t.WellFormed();
      var border := grid.borderOfRiver;
      var relevant := new int[n];
      forall i | 0 <= i < n {
        relevant[i] := border[i];
      }
      grid.relevant := relevant;

      var queue := set c | 0 <= c < n && border[c] == 1;
      var criticalHeight := CriticalHeight(riverHeight, elevationThreshold);

      assert t.border == border[..] == relevant[..];
      ProgressInit(t, criticalHeight, queue);
      Propagate(queue, criticalHeight, t);
    }
  }
}
