/**
 * The flow network the min-cut instance builds from an annotated grid, as
 * functions of the grid's fields.  Relevant cells become network nodes
 * (river-border and building cells one "single" node, every other relevant
 * cell an "in"/"out" pair joined by a finite arc), followed by the source,
 * the sink and one sink node per building.  Arcs are emitted pass by pass,
 * in the order the builder appends them.
 */
module MinCutGraph {
  import opened RasterGrid

  // ---------------------------------------------------------------------
  // Python's int() on a float, and the capacities built with it
  // ---------------------------------------------------------------------

  /** Truncation toward zero. */
  function TruncToInt(x: real): (r: int)
    ensures x >= 0.0 ==> r >= 0 && r as real <= x < r as real + 1.0
    ensures x < 0.0 ==> r <= 0 && r as real - 1.0 < x <= r as real
  {
    if x >= 0.0 then x.Floor else -((-x).Floor)
  }

  /** The capacity standing for "unbounded": `int(int(1e9) * scaling_factor)`. */
  function Infinity(scalingFactor: real): (r: int)
    ensures scalingFactor >= 0.0 ==> r >= 0 && r as real <= 1000000000.0 * scalingFactor < r as real + 1.0
  {
    TruncToInt(1000000000.0 * scalingFactor)
  }

  function Max0(x: real): real {
    if x > 0.0 then x else 0.0
  }

  /** The capacity of a cell's in -> out arc: how far the water stands above
      the cell, scaled and truncated. */
  function SplitCapacity(waterHeight: real, elevation: real, scalingFactor: real): (r: int)
    ensures scalingFactor >= 0.0 ==> r >= 0
    ensures elevation >= waterHeight ==> r == 0
  {
    TruncToInt(Max0(waterHeight - elevation) * scalingFactor)
  }

  /** The capacity of a building node's arc to the sink. */
  function BuildingCapacity(buildingWeight: real, scalingFactor: real): (r: int)
    ensures buildingWeight >= 0.0 && scalingFactor >= 0.0 ==> r >= 0
  {
    TruncToInt(buildingWeight * scalingFactor)
  }

  // ---------------------------------------------------------------------
  // The 8-neighbourhood
  // ---------------------------------------------------------------------

  /** The node at row `row + dr`, column `col + dc`, unless that is the node
      itself or lies outside the grid. */
  function Hit(rows: nat, cols: nat, row: int, col: int, dr: int, dc: int): seq<int> {
    if (dr == 0 && dc == 0) || !(0 <= row + dr < rows && 0 <= col + dc < cols) then []
    else [(row + dr) * cols + (col + dc)]
  }

  /** The hits of row offset `dr` for the first `j` column offsets -1, 0, 1. */
  function RowHits(rows: nat, cols: nat, row: int, col: int, dr: int, j: nat): seq<int> {
    if j == 0 then [] else RowHits(rows, cols, row, col, dr, j - 1) + Hit(rows, cols, row, col, dr, j - 2)
  }

  /** The hits of the first `i` row offsets -1, 0, 1, in the order the two
      nested loops visit them. */
  function RingHits(rows: nat, cols: nat, row: int, col: int, i: nat): seq<int> {
    if i == 0 then [] else RingHits(rows, cols, row, col, i - 1) + RowHits(rows, cols, row, col, i - 2, 3)
  }

  /** The 8-neighbours of node `id`, row offset major, column offset minor. */
  function EightNeighborhood(rows: nat, cols: nat, id: int): seq<int>
    requires InGrid(rows, cols, id)
  {
    IndexCell(rows, cols, id);
    RingHits(rows, cols, RowOf(cols, id), ColOf(cols, id), 3)
  }

  /** Two different grid positions at most one row and one column apart. */
  predicate Adjacent8(r1: int, c1: int, r2: int, c2: int) {
    (r1 != r2 || c1 != c2) && -1 <= r1 - r2 <= 1 && -1 <= c1 - c2 <= 1
  }

  /** The 8-neighbourhood is made of the nine hits: its length is the sum of
      theirs and its members are theirs. */
  lemma EightUnfold(rows: nat, cols: nat, id: int, n: int)
    requires InGrid(rows, cols, id)
    ensures cols > 0
    ensures var row, col := RowOf(cols, id), ColOf(cols, id);
            && |EightNeighborhood(rows, cols, id)|
               == |Hit(rows, cols, row, col, -1, -1)| + |Hit(rows, cols, row, col, -1, 0)| + |Hit(rows, cols, row, col, -1, 1)|
                + |Hit(rows, cols, row, col, 0, -1)| + |Hit(rows, cols, row, col, 0, 0)| + |Hit(rows, cols, row, col, 0, 1)|
                + |Hit(rows, cols, row, col, 1, -1)| + |Hit(rows, cols, row, col, 1, 0)| + |Hit(rows, cols, row, col, 1, 1)|
            && (n in EightNeighborhood(rows, cols, id) <==>
                || n in Hit(rows, cols, row, col, -1, -1) || n in Hit(rows, cols, row, col, -1, 0)
                || n in Hit(rows, cols, row, col, -1, 1) || n in Hit(rows, cols, row, col, 0, -1)
                || n in Hit(rows, cols, row, col, 0, 0) || n in Hit(rows, cols, row, col, 0, 1)
                || n in Hit(rows, cols, row, col, 1, -1) || n in Hit(rows, cols, row, col, 1, 0)
                || n in Hit(rows, cols, row, col, 1, 1))
  {
    IndexCell(rows, cols, id);
    var row, col := RowOf(cols, id), ColOf(cols, id);
    RowParts(rows, cols, row, col, -1, n);
    RowParts(rows, cols, row, col, 0, n);
    RowParts(rows, cols, row, col, 1, n);
    var up, mid, down := RowHits(rows, cols, row, col, -1, 3), RowHits(rows, cols, row, col, 0, 3),
                         RowHits(rows, cols, row, col, 1, 3);
    assert RingHits(rows, cols, row, col, 1) == up;
    assert RingHits(rows, cols, row, col, 2) == up + mid;
    assert RingHits(rows, cols, row, col, 3) == up + mid + down;
  }

  lemma RowParts(rows: nat, cols: nat, row: int, col: int, dr: int, n: int)
    ensures |RowHits(rows, cols, row, col, dr, 3)|
            == |Hit(rows, cols, row, col, dr, -1)| + |Hit(rows, cols, row, col, dr, 0)| + |Hit(rows, cols, row, col, dr, 1)|
    ensures n in RowHits(rows, cols, row, col, dr, 3) <==>
              n in Hit(rows, cols, row, col, dr, -1) || n in Hit(rows, cols, row, col, dr, 0)
              || n in Hit(rows, cols, row, col, dr, 1)
  {
    var left, centre, right := Hit(rows, cols, row, col, dr, -1), Hit(rows, cols, row, col, dr, 0),
                               Hit(rows, cols, row, col, dr, 1);
    assert RowHits(rows, cols, row, col, dr, 1) == left;
    assert RowHits(rows, cols, row, col, dr, 2) == left + centre;
    assert RowHits(rows, cols, row, col, dr, 3) == left + centre + right;
  }

  /** `n` is the hit of offset `(dr, dc)` from `m` exactly when it sits that
      offset away inside the grid and is not `m` itself. */
  lemma HitAt(rows: nat, cols: nat, m: int, dr: int, dc: int, n: int)
    requires InGrid(rows, cols, m) && cols > 0
    ensures n in Hit(rows, cols, RowOf(cols, m), ColOf(cols, m), dr, dc) <==>
              && (dr != 0 || dc != 0) && InGrid(rows, cols, n)
              && RowOf(cols, n) == RowOf(cols, m) + dr && ColOf(cols, n) == ColOf(cols, m) + dc
  {
    IndexCell(rows, cols, m);
    var rm, cm := RowOf(cols, m), ColOf(cols, m);
    if n in Hit(rows, cols, rm, cm, dr, dc) {
      Shifted(rows, cols, m, dr, dc, n);
    }
    if InGrid(rows, cols, n) && RowOf(cols, n) == rm + dr && ColOf(cols, n) == cm + dc {
      IndexCell(rows, cols, n);
    }
  }

  /** Membership in the 8-neighbourhood is exactly 8-adjacency of grid
      positions. */
  lemma EightNeighborhoodAdjacent(rows: nat, cols: nat, m: int, n: int)
    requires InGrid(rows, cols, m)
    ensures cols > 0
    ensures n in EightNeighborhood(rows, cols, m) <==>
              InGrid(rows, cols, n) && Adjacent8(RowOf(cols, m), ColOf(cols, m), RowOf(cols, n), ColOf(cols, n))
  {
    EightUnfold(rows, cols, m, n);
    HitAt(rows, cols, m, -1, -1, n);
    HitAt(rows, cols, m, -1, 0, n);
    HitAt(rows, cols, m, -1, 1, n);
    HitAt(rows, cols, m, 0, -1, n);
    HitAt(rows, cols, m, 0, 0, n);
    HitAt(rows, cols, m, 0, 1, n);
    HitAt(rows, cols, m, 1, -1, n);
    HitAt(rows, cols, m, 1, 0, n);
    HitAt(rows, cols, m, 1, 1, n);
  }

  /** The 8-neighbours of a node lie inside the grid, never include the node
      itself, number at most eight, and the relation is symmetric. */
  lemma EightNeighborhoodShape(rows: nat, cols: nat, m: int, n: int)
    requires InGrid(rows, cols, m)
    ensures |EightNeighborhood(rows, cols, m)| <= 8
    ensures m !in EightNeighborhood(rows, cols, m)
    ensures n in EightNeighborhood(rows, cols, m) ==> InGrid(rows, cols, n)
    ensures InGrid(rows, cols, n) ==>
              (n in EightNeighborhood(rows, cols, m) <==> m in EightNeighborhood(rows, cols, n))
  {
    EightUnfold(rows, cols, m, n);
    EightNeighborhoodAdjacent(rows, cols, m, m);
    EightNeighborhoodAdjacent(rows, cols, m, n);
    if InGrid(rows, cols, n) {
      EightNeighborhoodAdjacent(rows, cols, n, m);
    }
  }

  // ---------------------------------------------------------------------
  // np.unique of the positive building ids
  // ---------------------------------------------------------------------

  predicate StrictlyIncreasing(s: seq<int>) {
    forall i, j :: 0 <= i < j < |s| ==> s[i] < s[j]
  }

  /** Putting an element below all of an increasing sequence in front of
      it keeps it increasing. */
  lemma PrependSmaller(x: int, t: seq<int>)
    requires StrictlyIncreasing(t) && forall y :: y in t ==> x < y
    ensures StrictlyIncreasing([x] + t)
  {
    var r := [x] + t;
    forall i, j | 0 <= i < j < |r|
      ensures r[i] < r[j]
    {
      assert r[j] == t[j - 1] && r[j] in t;
      if i > 0 {
        assert r[i] == t[i - 1];
      }
    }
  }

  /** Inserts `x` into a strictly increasing sequence unless it is there. */
  function InsertSorted(s: seq<int>, x: int): (r: seq<int>)
    requires StrictlyIncreasing(s)
    ensures StrictlyIncreasing(r)
    ensures forall y :: y in r <==> y in s || y == x
  {
    if s == [] then [x]
    else if x < s[0] then [x] + s
    else if x == s[0] then s
    else
      var t := InsertSorted(s[1..], x);
      assert s == [s[0]] + s[1..];
      assert forall y :: y in s[1..] ==> s[0] < y;
      PrependSmaller(s[0], t);
      [s[0]] + t
  }

  /** The distinct positive building ids in ascending order. */
  function UniquePositive(ids: seq<int>): (r: seq<int>)
    ensures StrictlyIncreasing(r)
    ensures forall b :: b in r <==> b in ids && b > 0
  {
    if ids == [] then []
    else
      var r := UniquePositive(ids[..|ids| - 1]);
      assert ids == ids[..|ids| - 1] + [ids[|ids| - 1]];
      if ids[|ids| - 1] > 0 then InsertSorted(r, ids[|ids| - 1]) else r
  }

  // ---------------------------------------------------------------------
  // Concatenating the arcs of one pass
  // ---------------------------------------------------------------------

  datatype Arc = Arc(tail: int, head: int, capacity: int)

  /** `f(0) + f(1) + ... + f(k - 1)`: what a pass over `0 .. k - 1` appends. */
  function Gather(k: nat, f: int -> seq<Arc>): seq<Arc> {
    if k == 0 then [] else Gather(k - 1, f) + f(k - 1)
  }

  /** `f(s[0]) + ... + f(s[|s| - 1])`: what a pass over the list `s` appends. */
  function GatherOver(s: seq<int>, f: int -> seq<Arc>): seq<Arc> {
    if s == [] then [] else GatherOver(s[..|s| - 1], f) + f(s[|s| - 1])
  }

  /** Every gathered arc comes from one item. */
  lemma {:induction false} GatherWitness(k: nat, f: int -> seq<Arc>, a: Arc) returns (c: int)
    requires a in Gather(k, f)
    ensures 0 <= c < k && a in f(c)
  {
    if a in f(k - 1) {
      c := k - 1;
    } else {
      c := GatherWitness(k - 1, f, a);
    }
  }

  /** Every arc of every item is gathered. */
  lemma {:induction false} GatherHas(k: nat, f: int -> seq<Arc>, c: int, a: Arc)
    requires 0 <= c < k && a in f(c)
    ensures a in Gather(k, f)
  {
    if c < k - 1 {
      GatherHas(k - 1, f, c, a);
    }
  }

  lemma {:induction false} GatherOverWitness(s: seq<int>, f: int -> seq<Arc>, a: Arc) returns (x: int)
    requires a in GatherOver(s, f)
    ensures x in s && a in f(x)
  {
    var last := s[|s| - 1];
    if a in f(last) {
      x := last;
    } else {
      x := GatherOverWitness(s[..|s| - 1], f, a);
    }
  }

  lemma {:induction false} GatherOverHas(s: seq<int>, f: int -> seq<Arc>, x: int, a: Arc)
    requires x in s && a in f(x)
    ensures a in GatherOver(s, f)
  {
    if x != s[|s| - 1] {
      assert x in s[..|s| - 1] by {
        var i :| 0 <= i < |s| && s[i] == x;
        assert s[..|s| - 1][i] == x;
      }
      GatherOverHas(s[..|s| - 1], f, x, a);
    }
  }

  // ---------------------------------------------------------------------
  // The annotated grid and its cell nodes
  // ---------------------------------------------------------------------

  /** What the builder reads from the grid. */
  datatype Layer = Layer(rows: nat, cols: nat, elevation: seq<real>, border: seq<int>,
                         buildingIds: seq<int>, relevant: seq<int>, nodeX: seq<real>, nodeY: seq<real>)
  {
    predicate WellFormed() {
      |elevation| == |border| == |buildingIds| == |relevant| == |nodeX| == |nodeY| == rows * cols
    }

    function Size(): nat {
      |relevant|
    }

    /** `c` is a node of the grid. */
    predicate Has(c: int) {
      WellFormed() && 0 <= c < |relevant|
    }
  }

  /** The key of `node_map`: a grid node and the role of the network node. */
  datatype Role = Single | In | Out

  datatype Category = River | Building | NormalIn | NormalOut | SourceNode | SinkNode | BuildingSink

  type Position = (real, real)

  /** A relevant cell that is a river border or carries a building becomes
      one network node. */
  predicate IsSingle(g: Layer, c: int)
    requires g.Has(c)
  {
    g.border[c] == 1 || g.buildingIds[c] != 0
  }

  /** A relevant cell that is neither becomes an in/out pair. */
  predicate IsSplit(g: Layer, c: int)
    requires g.Has(c)
  {
    g.relevant[c] != 0 && !IsSingle(g, c)
  }

  /** How many network nodes cell `c` receives. */
  function Width(g: Layer, c: int): (w: nat)
    requires g.Has(c)
    ensures w <= 2
  {
    if g.relevant[c] == 0 then 0 else if IsSingle(g, c) then 1 else 2
  }

  /** The first id not taken by the cells `0 .. k - 1`. */
  function Offset(g: Layer, k: nat): nat
    requires g.WellFormed() && k <= g.Size()
  {
    if k == 0 then 0 else Offset(g, k - 1) + Width(g, k - 1)
  }

  /** The network nodes of the cells come first. */
  function CellNodeCount(g: Layer): nat
    requires g.WellFormed()
  {
    Offset(g, g.Size())
  }

  function SourceId(g: Layer): int
    requires g.WellFormed()
  {
    CellNodeCount(g)
  }

  function SinkId(g: Layer): int
    requires g.WellFormed()
  {
    CellNodeCount(g) + 1
  }

  /** The building sinks follow the sink, one per id of `BuildingIds`. */
  function BuildingBase(g: Layer): int
    requires g.WellFormed()
  {
    CellNodeCount(g) + 2
  }

  function BuildingIds(g: Layer): seq<int> {
    UniquePositive(g.buildingIds)
  }

  function NodeCount(g: Layer): nat
    requires g.WellFormed()
  {
    CellNodeCount(g) + 2 + |BuildingIds(g)|
  }

  /** Cell `c` has a node of role `r`. */
  predicate HasNode(g: Layer, c: int, r: Role)
    requires g.Has(c)
  {
    g.relevant[c] != 0 && (if IsSingle(g, c) then r == Single else r != Single)
  }

  /** The id of cell `c`'s node of role `r`: in-node and single node take the
      cell's offset, the out-node the next id. */
  function NodeId(g: Layer, c: int, r: Role): int
    requires g.Has(c)
  {
    Offset(g, c) + if r == Out then 1 else 0
  }

  /** `node_map` after the first `k` cells. */
  function NodeMapAfter(g: Layer, k: nat): map<(int, Role), int>
    requires g.WellFormed() && k <= g.Size()
  {
    if k == 0 then map[]
    else
      var m, c := NodeMapAfter(g, k - 1), k - 1;
      if g.relevant[c] == 0 then m
      else if IsSingle(g, c) then m[(c, Single) := Offset(g, c)]
      else m[(c, In) := Offset(g, c)][(c, Out) := Offset(g, c) + 1]
  }

  function CellCategory(g: Layer, c: int): Category
    requires g.Has(c)
  {
    if g.border[c] == 1 then River else Building
  }

  /** `categories` after the first `k` cells. */
  function CategoriesAfter(g: Layer, k: nat): map<int, Category>
    requires g.WellFormed() && k <= g.Size()
  {
    if k == 0 then map[]
    else
      var m, c := CategoriesAfter(g, k - 1), k - 1;
      if g.relevant[c] == 0 then m
      else if IsSingle(g, c) then m[Offset(g, c) := CellCategory(g, c)]
      else m[Offset(g, c) := NormalIn][Offset(g, c) + 1 := NormalOut]
  }

  /** `node_positions` after the first `k` cells. */
  function PositionsAfter(g: Layer, k: nat): map<int, Position>
    requires g.WellFormed() && k <= g.Size()
  {
    if k == 0 then map[]
    else
      var m, c := PositionsAfter(g, k - 1), k - 1;
      if g.relevant[c] == 0 then m
      else if IsSingle(g, c) then m[Offset(g, c) := (g.nodeX[c], g.nodeY[c])]
      else m[Offset(g, c) := (g.nodeX[c], g.nodeY[c])][Offset(g, c) + 1 := (g.nodeX[c], g.nodeY[c])]
  }

  /** `building_nodes` after the first `k` building ids. */
  function BuildingNodesAfter(ids: seq<int>, base: int, k: nat): map<int, int>
    requires k <= |ids|
  {
    if k == 0 then map[] else BuildingNodesAfter(ids, base, k - 1)[ids[k - 1] := base + k - 1]
  }

  function BuildingNodes(g: Layer): map<int, int>
    requires g.WellFormed()
  {
    BuildingNodesAfter(BuildingIds(g), BuildingBase(g), |BuildingIds(g)|)
  }

  /** The building sinks' categories added to `m` for the first `k` ids. */
  function SinkCategoriesAfter(m: map<int, Category>, base: int, k: nat): map<int, Category> {
    if k == 0 then m else SinkCategoriesAfter(m, base, k - 1)[base + k - 1 := BuildingSink]
  }

  /** A building sink's position encodes its id: `(0, -2 * id)`. */
  function SinkPosition(b: int): Position {
    (0.0, (-b * 2) as real)
  }

  function SinkPositionsAfter(m: map<int, Position>, ids: seq<int>, base: int, k: nat): map<int, Position>
    requires k <= |ids|
  {
    if k == 0 then m else SinkPositionsAfter(m, ids, base, k - 1)[base + k - 1 := SinkPosition(ids[k - 1])]
  }

  /** The built `node_map`. */
  function NodeMap(g: Layer): map<(int, Role), int>
    requires g.WellFormed()
  {
    NodeMapAfter(g, g.Size())
  }

  /** The categories once source, sink and building sinks are added. */
  function TerminalCategories(g: Layer): map<int, Category>
    requires g.WellFormed()
  {
    CategoriesAfter(g, g.Size())[SourceId(g) := SourceNode][SinkId(g) := SinkNode]
  }

  function Categories(g: Layer): map<int, Category>
    requires g.WellFormed()
  {
    SinkCategoriesAfter(TerminalCategories(g), BuildingBase(g), |BuildingIds(g)|)
  }

  function TerminalPositions(g: Layer): map<int, Position>
    requires g.WellFormed()
  {
    PositionsAfter(g, g.Size())[SourceId(g) := (-1.0, -1.0)][SinkId(g) := (-2.0, -2.0)]
  }

  function Positions(g: Layer): map<int, Position>
    requires g.WellFormed()
  {
    SinkPositionsAfter(TerminalPositions(g), BuildingIds(g), BuildingBase(g), |BuildingIds(g)|)
  }

  // ---------------------------------------------------------------------
  // The arcs, pass by pass
  // ---------------------------------------------------------------------

  /** The in -> out capacity of every cell, split or not. */
  function SplitCapacities(g: Layer, waterHeight: real, scalingFactor: real): (r: seq<int>)
    requires g.WellFormed()
    ensures |r| == g.Size()
    ensures scalingFactor >= 0.0 ==> forall c :: 0 <= c < |r| ==> r[c] >= 0
    ensures forall c :: 0 <= c < |r| && g.elevation[c] >= waterHeight ==> r[c] == 0
  {
    seq(g.Size(), c requires 0 <= c < g.Size() => SplitCapacity(waterHeight, g.elevation[c], scalingFactor))
  }

  /** The in -> out arc of a split cell, with the cell's entry of
      `capacity`. */
  function SplitArc(g: Layer, capacity: seq<int>, c: int): seq<Arc> {
    if g.Has(c) && c < |capacity| && IsSplit(g, c)
    then [Arc(Offset(g, c), Offset(g, c) + 1, capacity[c])]
    else []
  }

  function SplitArcFn(g: Layer, capacity: seq<int>): int -> seq<Arc> {
    c => SplitArc(g, capacity, c)
  }

  /** The source feeds every relevant river-border cell. */
  function SourceArc(g: Layer, infinity: int, c: int): seq<Arc> {
    if g.Has(c) && g.relevant[c] != 0 && g.border[c] == 1
    then [Arc(SourceId(g), Offset(g, c), infinity)]
    else []
  }

  function SourceArcFn(g: Layer, infinity: int): int -> seq<Arc> {
    c => SourceArc(g, infinity, c)
  }

  /** The `i`-th building sink drains into the sink. */
  function SinkArc(base: int, sink: int, capacity: int, i: int): seq<Arc> {
    [Arc(base + i, sink, capacity)]
  }

  function SinkArcFn(base: int, sink: int, capacity: int): int -> seq<Arc> {
    i => SinkArc(base, sink, capacity, i)
  }

  /** A relevant building cell feeds its building's sink node. */
  function BuildingCellArc(g: Layer, infinity: int, c: int): seq<Arc> {
    if g.Has(c) && g.relevant[c] != 0 && g.buildingIds[c] != 0 && g.buildingIds[c] in BuildingNodes(g)
    then [Arc(Offset(g, c), BuildingNodes(g)[g.buildingIds[c]], infinity)]
    else []
  }

  function BuildingCellArcFn(g: Layer, infinity: int): int -> seq<Arc> {
    c => BuildingCellArc(g, infinity, c)
  }

  /** The node an arc leaving cell `c` starts from: its out-node, or its
      single node. */
  function OutNode(g: Layer, c: int): int
    requires g.Has(c)
  {
    Offset(g, c) + if IsSingle(g, c) then 0 else 1
  }

  /** The arc from cell `c` to its relevant 8-neighbour `nb`, unless both are
      river-border cells. */
  function NeighborArc(g: Layer, infinity: int, c: int, nb: int): seq<Arc> {
    if g.Has(c) && g.Has(nb) && g.relevant[nb] != 0 && !(g.border[c] == 1 && g.border[nb] == 1)
    then [Arc(OutNode(g, c), Offset(g, nb), infinity)]
    else []
  }

  function NeighborArcFn(g: Layer, infinity: int, c: int): int -> seq<Arc> {
    nb => NeighborArc(g, infinity, c, nb)
  }

  /** The neighbour arcs of a relevant cell without a building. */
  function NeighborArcs(g: Layer, infinity: int, c: int): seq<Arc> {
    if g.Has(c) && g.relevant[c] != 0 && g.buildingIds[c] == 0
    then GatherOver(EightNeighborhood(g.rows, g.cols, c), NeighborArcFn(g, infinity, c))
    else []
  }

  function NeighborArcsFn(g: Layer, infinity: int): int -> seq<Arc> {
    c => NeighborArcs(g, infinity, c)
  }

  /** The arc from river-border cell `c` to the in-node of its 8-neighbour
      `nb`, when `nb` is split and its `relevant` flag is 1. */
  function RiverArc(g: Layer, infinity: int, c: int, nb: int): seq<Arc> {
    if g.Has(c) && g.Has(nb) && g.relevant[nb] == 1 && !IsSingle(g, nb)
    then [Arc(Offset(g, c), Offset(g, nb), infinity)]
    else []
  }

  function RiverArcFn(g: Layer, infinity: int, c: int): int -> seq<Arc> {
    nb => RiverArc(g, infinity, c, nb)
  }

  /** The arcs of the final pass for a relevant river-border cell. */
  function RiverArcs(g: Layer, infinity: int, c: int): seq<Arc> {
    if g.Has(c) && g.border[c] == 1 && g.relevant[c] != 0
    then GatherOver(EightNeighborhood(g.rows, g.cols, c), RiverArcFn(g, infinity, c))
    else []
  }

  function RiverArcsFn(g: Layer, infinity: int): int -> seq<Arc> {
    c => RiverArcs(g, infinity, c)
  }

  /** The whole arc list, in the order the builder appends it. */
  function Arcs(g: Layer, capacity: seq<int>, infinity: int, buildingCapacity: int): seq<Arc>
    requires g.WellFormed()
  {
    var n := g.Size();
    Gather(n, SplitArcFn(g, capacity))
    + Gather(n, SourceArcFn(g, infinity))
    + Gather(|BuildingIds(g)|, SinkArcFn(BuildingBase(g), SinkId(g), buildingCapacity))
    + Gather(n, BuildingCellArcFn(g, infinity))
    + Gather(n, NeighborArcsFn(g, infinity))
    + Gather(n, RiverArcsFn(g, infinity))
  }

  // ---------------------------------------------------------------------
  // Node ids
  // ---------------------------------------------------------------------

  /** Offsets grow with the cell index, by each cell's width. */
  lemma {:induction false} OffsetMonotone(g: Layer, c: int, d: nat)
    requires g.WellFormed() && 0 <= c < d <= g.Size()
    ensures Offset(g, c) + Width(g, c) <= Offset(g, d)
  {
    if c < d - 1 {
      OffsetMonotone(g, c, d - 1);
    }
  }

  /** Each cell's nodes lie below the count of cell nodes. */
  lemma CellNodesBelow(g: Layer, c: int)
    requires g.Has(c)
    ensures Offset(g, c) + Width(g, c) <= CellNodeCount(g)
  {
    OffsetMonotone(g, c, g.Size());
  }

  /** The id ranges of two different cells do not overlap. */
  lemma NodeOwner(g: Layer, c: int, i: int, d: int, j: int)
    requires g.Has(c) && g.Has(d) && 0 <= i < Width(g, c) && 0 <= j < Width(g, d)
    requires Offset(g, c) + i == Offset(g, d) + j
    ensures c == d && i == j
  {
    if c < d {
      OffsetMonotone(g, c, d);
    } else if d < c {
      OffsetMonotone(g, d, c);
    }
  }

  /** `node_map` holds exactly one single node for each relevant river-border
      or building cell and an in/out pair for every other relevant cell, at
      the ids `NodeId` gives; irrelevant cells have no node. */
  lemma {:induction false} NodeMapShape(g: Layer, k: nat, c: int, r: Role)
    requires g.WellFormed() && k <= g.Size()
    ensures (c, r) in NodeMapAfter(g, k) <==> 0 <= c < k && HasNode(g, c, r)
    ensures (c, r) in NodeMapAfter(g, k) ==> NodeMapAfter(g, k)[(c, r)] == NodeId(g, c, r)
  {
    if k > 0 {
      NodeMapShape(g, k - 1, c, r);
    }
  }

  /** Different nodes of `node_map` have different ids, all below the count
      of cell nodes. */
  lemma NodeIdsDistinct(g: Layer, c: int, r: Role, d: int, s: Role)
    requires g.Has(c) && g.Has(d) && HasNode(g, c, r) && HasNode(g, d, s)
    ensures 0 <= NodeId(g, c, r) < CellNodeCount(g)
    ensures NodeId(g, c, r) == NodeId(g, d, s) ==> c == d && r == s
  {
    CellNodesBelow(g, c);
    if NodeId(g, c, r) == NodeId(g, d, s) {
      NodeOwner(g, c, if r == Out then 1 else 0, d, if s == Out then 1 else 0);
    }
  }

  /** The ids of the cell nodes are consecutive from 0: every id below the
      count belongs to a node of `node_map`. */
  lemma {:induction false} NodeIdsCover(g: Layer, k: nat, id: int) returns (c: int, r: Role)
    requires g.WellFormed() && k <= g.Size() && 0 <= id < Offset(g, k)
    ensures 0 <= c < k && HasNode(g, c, r) && NodeId(g, c, r) == id
  {
    if id < Offset(g, k - 1) {
      c, r := NodeIdsCover(g, k - 1, id);
    } else {
      c := k - 1;
      r := if IsSingle(g, c) then Single else if id == Offset(g, c) then In else Out;
    }
  }

  /** The categories of the cell nodes: a single node is a river or a
      building node, a split cell's pair is normal-in and normal-out, and the
      ids with a category are exactly those of the cells seen so far. */
  lemma {:induction false} CellCategoriesShape(g: Layer, k: nat, id: int)
    requires g.WellFormed() && k <= g.Size()
    ensures id in CategoriesAfter(g, k) <==> 0 <= id < Offset(g, k)
    ensures id in PositionsAfter(g, k) <==> 0 <= id < Offset(g, k)
  {
    if k > 0 {
      CellCategoriesShape(g, k - 1, id);
    }
  }

  lemma {:induction false} CellCategoryAt(g: Layer, k: nat, c: int, r: Role)
    requires g.WellFormed() && c < k <= g.Size() && g.Has(c) && HasNode(g, c, r)
    ensures NodeId(g, c, r) in CategoriesAfter(g, k)
    ensures CategoriesAfter(g, k)[NodeId(g, c, r)]
            == match r case Single => CellCategory(g, c) case In => NormalIn case Out => NormalOut
    ensures NodeId(g, c, r) in PositionsAfter(g, k)
    ensures PositionsAfter(g, k)[NodeId(g, c, r)] == (g.nodeX[c], g.nodeY[c])
  {
    if c < k - 1 {
      CellCategoryAt(g, k - 1, c, r);
      OffsetMonotone(g, c, k - 1);
    }
  }

  /** No cell node is a building sink. */
  lemma {:induction false} CellCategoriesNotSink(g: Layer, k: nat, id: int)
    requires g.WellFormed() && k <= g.Size() && id in CategoriesAfter(g, k)
    ensures CategoriesAfter(g, k)[id] in {River, Building, NormalIn, NormalOut}
  {
    if id in CategoriesAfter(g, k - 1) {
      CellCategoriesNotSink(g, k - 1, id);
    }
  }

  /** Adding the building sinks gives `base .. base + k - 1` their category
      and leaves every other id as it was. */
  lemma {:induction false} SinkCategoriesShape(m: map<int, Category>, base: int, k: nat, id: int)
    ensures id in SinkCategoriesAfter(m, base, k) <==> id in m || base <= id < base + k
    ensures base <= id < base + k ==> SinkCategoriesAfter(m, base, k)[id] == BuildingSink
    ensures id in m && !(base <= id < base + k) ==> SinkCategoriesAfter(m, base, k)[id] == m[id]
  {
    if k > 0 {
      SinkCategoriesShape(m, base, k - 1, id);
    }
  }

  /** Adding the building sinks places each at the position encoding its
      id. */
  lemma {:induction false} SinkPositionsShape(m: map<int, Position>, ids: seq<int>, base: int, k: nat, id: int)
    requires k <= |ids|
    ensures id in SinkPositionsAfter(m, ids, base, k) <==> id in m || base <= id < base + k
    ensures base <= id < base + k ==> SinkPositionsAfter(m, ids, base, k)[id] == SinkPosition(ids[id - base])
    ensures id in m && !(base <= id < base + k) ==> SinkPositionsAfter(m, ids, base, k)[id] == m[id]
  {
    if k > 0 {
      SinkPositionsShape(m, ids, base, k - 1, id);
    }
  }

  /** Every id below the node count has a category, and no other: the cell
      nodes, the source, the sink and one building sink per building id. */
  lemma CategoriesShape(g: Layer, id: int)
    requires g.WellFormed()
    ensures id in Categories(g) <==> 0 <= id < NodeCount(g)
    ensures id in Positions(g) <==> 0 <= id < NodeCount(g)
    ensures id == SourceId(g) ==> Categories(g)[id] == SourceNode && Positions(g)[id] == (-1.0, -1.0)
    ensures id == SinkId(g) ==> Categories(g)[id] == SinkNode && Positions(g)[id] == (-2.0, -2.0)
    ensures BuildingBase(g) <= id < NodeCount(g) ==>
              && Categories(g)[id] == BuildingSink
              && Positions(g)[id] == SinkPosition(BuildingIds(g)[id - BuildingBase(g)])
    ensures 0 <= id < CellNodeCount(g) ==>
              && id in CategoriesAfter(g, g.Size()) && id in PositionsAfter(g, g.Size())
              && Categories(g)[id] == CategoriesAfter(g, g.Size())[id] && Positions(g)[id] == PositionsAfter(g, g.Size())[id]
    ensures id in Categories(g) ==> (Categories(g)[id] == BuildingSink <==> BuildingBase(g) <= id)
  {
    CellCategoriesShape(g, g.Size(), id);
    if id in CategoriesAfter(g, g.Size()) {
      CellCategoriesNotSink(g, g.Size(), id);
    }
    SinkCategoriesShape(TerminalCategories(g), BuildingBase(g), |BuildingIds(g)|, id);
    SinkPositionsShape(TerminalPositions(g), BuildingIds(g), BuildingBase(g), |BuildingIds(g)|, id);
  }

  /** `building_nodes` maps each building id to the sink node created for
      it. */
  lemma {:induction false} BuildingNodesShape(ids: seq<int>, base: int, k: nat, b: int)
    requires StrictlyIncreasing(ids) && k <= |ids|
    ensures b in BuildingNodesAfter(ids, base, k) <==> b in ids[..k]
    ensures b in BuildingNodesAfter(ids, base, k) ==>
              var i := BuildingNodesAfter(ids, base, k)[b] - base; 0 <= i < k && ids[i] == b
  {
    if k > 0 {
      BuildingNodesShape(ids, base, k - 1, b);
      assert ids[..k] == ids[..k - 1] + [ids[k - 1]];
    }
  }

  /** The keys of `building_nodes` are exactly the positive building ids of
      the grid, each mapped to the sink node at its place in `BuildingIds`. */
  lemma BuildingNodesKeys(g: Layer, b: int)
    requires g.WellFormed()
    ensures b in BuildingNodes(g) <==> b > 0 && b in g.buildingIds
    ensures b in BuildingNodes(g) ==>
              var i := BuildingNodes(g)[b] - BuildingBase(g); 0 <= i < |BuildingIds(g)| && BuildingIds(g)[i] == b
  {
    var ids := BuildingIds(g);
    assert ids[..|ids|] == ids;
    BuildingNodesShape(ids, BuildingBase(g), |ids|, b);
  }

  // ---------------------------------------------------------------------
  // Arcs
  // ---------------------------------------------------------------------

  /** Where an arc of the network comes from: pass 0 is a split cell's
      in -> out arc, 1 a source arc, 2 a building sink's arc to the sink, 3 a
      building cell's arc to its building sink, 4 a neighbour arc and 5 an arc
      of the final river-border pass. */
  lemma ArcOrigin(g: Layer, capacity: seq<int>, infinity: int, buildingCapacity: int, a: Arc)
    returns (pass: nat, c: int, nb: int)
    requires g.WellFormed() && a in Arcs(g, capacity, infinity, buildingCapacity)
    ensures pass <= 5
    ensures pass == 0 ==>
              && g.Has(c) && IsSplit(g, c) && c < |capacity|
              && a == Arc(Offset(g, c), Offset(g, c) + 1, capacity[c])
    ensures pass == 1 ==>
              && g.Has(c) && g.relevant[c] != 0 && g.border[c] == 1
              && a == Arc(SourceId(g), Offset(g, c), infinity)
    ensures pass == 2 ==>
              && 0 <= c < |BuildingIds(g)|
              && a == Arc(BuildingBase(g) + c, SinkId(g), buildingCapacity)
    ensures pass == 3 ==>
              && g.Has(c) && g.relevant[c] != 0 && g.buildingIds[c] != 0 && g.buildingIds[c] in BuildingNodes(g)
              && a == Arc(Offset(g, c), BuildingNodes(g)[g.buildingIds[c]], infinity)
    ensures pass == 4 ==>
              && g.Has(c) && g.Has(nb) && g.relevant[c] != 0 && g.buildingIds[c] == 0
              && nb in EightNeighborhood(g.rows, g.cols, c) && g.relevant[nb] != 0
              && !(g.border[c] == 1 && g.border[nb] == 1)
              && a == Arc(OutNode(g, c), Offset(g, nb), infinity)
    ensures pass == 5 ==>
              && g.Has(c) && g.Has(nb) && g.relevant[c] != 0 && g.border[c] == 1
              && nb in EightNeighborhood(g.rows, g.cols, c) && g.relevant[nb] == 1 && !IsSingle(g, nb)
              && a == Arc(Offset(g, c), Offset(g, nb), infinity)
  {
    var n, infinity, ids := g.Size(), infinity, BuildingIds(g);
    var sinkArcs := SinkArcFn(BuildingBase(g), SinkId(g), buildingCapacity);
    nb := 0;
    if a in Gather(n, SplitArcFn(g, capacity)) {
      pass := 0;
      c := GatherWitness(n, SplitArcFn(g, capacity), a);
    } else if a in Gather(n, SourceArcFn(g, infinity)) {
      pass := 1;
      c := GatherWitness(n, SourceArcFn(g, infinity), a);
    } else if a in Gather(|ids|, sinkArcs) {
      pass := 2;
      c := GatherWitness(|ids|, sinkArcs, a);
    } else if a in Gather(n, BuildingCellArcFn(g, infinity)) {
      pass := 3;
      c := GatherWitness(n, BuildingCellArcFn(g, infinity), a);
    } else if a in Gather(n, NeighborArcsFn(g, infinity)) {
      pass := 4;
      c := GatherWitness(n, NeighborArcsFn(g, infinity), a);
      nb := GatherOverWitness(EightNeighborhood(g.rows, g.cols, c), NeighborArcFn(g, infinity, c), a);
    } else {
      pass := 5;
      c := GatherWitness(n, RiverArcsFn(g, infinity), a);
      nb := GatherOverWitness(EightNeighborhood(g.rows, g.cols, c), RiverArcFn(g, infinity, c), a);
    }
  }

  /** Every arc joins two nodes of the network; nothing enters the source and
      nothing leaves the sink. */
  lemma ArcEndpoints(g: Layer, capacity: seq<int>, infinity: int, buildingCapacity: int, a: Arc)
    requires g.WellFormed() && a in Arcs(g, capacity, infinity, buildingCapacity)
    ensures 0 <= a.tail < NodeCount(g) && 0 <= a.head < NodeCount(g)
    ensures a.head != SourceId(g) && a.tail != SinkId(g)
  {
    var pass, c, nb := ArcOrigin(g, capacity, infinity, buildingCapacity, a);
    if pass != 2 {
      CellNodesBelow(g, c);
    }
    if pass == 3 {
      BuildingNodesShape(BuildingIds(g), BuildingBase(g), |BuildingIds(g)|, g.buildingIds[c]);
    }
    if pass == 4 || pass == 5 {
      CellNodesBelow(g, nb);
    }
  }

  /** The source's arcs go exactly to the single nodes of the relevant
      river-border cells, each with capacity `Infinity`. */
  lemma SourceArcOrigin(g: Layer, capacity: seq<int>, infinity: int, buildingCapacity: int, a: Arc)
    returns (c: int)
    requires g.WellFormed() && a in Arcs(g, capacity, infinity, buildingCapacity) && a.tail == SourceId(g)
    ensures g.Has(c) && g.relevant[c] != 0 && g.border[c] == 1 && HasNode(g, c, Single)
    ensures a == Arc(SourceId(g), NodeId(g, c, Single), infinity)
  {
    var pass, nb;
    pass, c, nb := ArcOrigin(g, capacity, infinity, buildingCapacity, a);
    if pass != 1 && pass != 2 {
      CellNodesBelow(g, c);
    }
  }

  lemma SourceFeedsBorder(g: Layer, capacity: seq<int>, infinity: int, buildingCapacity: int, c: int)
    requires g.Has(c) && g.relevant[c] != 0 && g.border[c] == 1
    ensures HasNode(g, c, Single)
    ensures Arc(SourceId(g), NodeId(g, c, Single), infinity) in Arcs(g, capacity, infinity, buildingCapacity)
  {
    GatherHas(g.Size(), SourceArcFn(g, infinity), c, Arc(SourceId(g), Offset(g, c), infinity));
  }

  /** A split cell's in -> out arc is in the network; it is the only arc
      leaving the in-node and the only arc entering the out-node. */
  lemma SplitArcOnly(g: Layer, capacity: seq<int>, infinity: int, buildingCapacity: int, c: int, a: Arc)
    requires g.Has(c) && IsSplit(g, c) && |capacity| == g.Size()
    ensures HasNode(g, c, In) && HasNode(g, c, Out)
    ensures var split := Arc(NodeId(g, c, In), NodeId(g, c, Out), capacity[c]);
            && split in Arcs(g, capacity, infinity, buildingCapacity)
            && (a in Arcs(g, capacity, infinity, buildingCapacity) && (a.tail == split.tail || a.head == split.head)
                ==> a == split)
  {
    var split := Arc(NodeId(g, c, In), NodeId(g, c, Out), capacity[c]);
    GatherHas(g.Size(), SplitArcFn(g, capacity), c, split);
    CellNodesBelow(g, c);
    if a in Arcs(g, capacity, infinity, buildingCapacity) && (a.tail == split.tail || a.head == split.head) {
      var pass, d, nb := ArcOrigin(g, capacity, infinity, buildingCapacity, a);
      if pass != 2 {
        CellNodesBelow(g, d);
      }
      if pass == 3 {
        BuildingNodesShape(BuildingIds(g), BuildingBase(g), |BuildingIds(g)|, g.buildingIds[d]);
      }
      if pass == 0 {
        if a.tail == split.tail {
          NodeOwner(g, c, 0, d, 0);
        } else {
          NodeOwner(g, c, 1, d, 1);
        }
      } else if pass == 1 {
        NodeOwner(g, c, 1, d, 0);
      } else if pass == 3 {
        NodeOwner(g, c, 0, d, 0);
      } else if pass == 4 {
        if a.tail == split.tail {
          NodeOwner(g, c, 0, d, if IsSingle(g, d) then 0 else 1);
        } else {
          NodeOwner(g, c, 1, nb, 0);
        }
      } else if pass == 5 {
        if a.tail == split.tail {
          NodeOwner(g, c, 0, d, 0);
        } else {
          NodeOwner(g, c, 1, nb, 0);
        }
      }
    }
  }

  /** Every relevant building cell carries a positive id, so the builder's
      lookup of its building's sink node cannot miss. */
  predicate BuildingIdsResolvable(g: Layer) {
    forall c :: 0 <= c < g.Size() && g.Has(c) && g.relevant[c] != 0 && g.buildingIds[c] != 0 ==> g.buildingIds[c] > 0
  }

  /** The `i`-th building sink stands for a positive building id of the grid,
      has the building-sink category, and has exactly one outgoing arc: to
      the sink, with the building capacity. */
  lemma BuildingSinkArcs(g: Layer, capacity: seq<int>, infinity: int, buildingCapacity: int, i: int, a: Arc)
    requires g.WellFormed() && 0 <= i < |BuildingIds(g)|
    ensures BuildingIds(g)[i] > 0 && BuildingIds(g)[i] in g.buildingIds
    ensures BuildingBase(g) + i in Categories(g) && Categories(g)[BuildingBase(g) + i] == BuildingSink
    ensures var drain := Arc(BuildingBase(g) + i, SinkId(g), buildingCapacity);
            && drain in Arcs(g, capacity, infinity, buildingCapacity)
            && (a in Arcs(g, capacity, infinity, buildingCapacity) && a.tail == drain.tail ==> a == drain)
  {
    assert BuildingIds(g)[i] in BuildingIds(g);
    CategoriesShape(g, BuildingBase(g) + i);
    var drain := Arc(BuildingBase(g) + i, SinkId(g), buildingCapacity);
    GatherHas(|BuildingIds(g)|, SinkArcFn(BuildingBase(g), SinkId(g), buildingCapacity), i, drain);
    if a in Arcs(g, capacity, infinity, buildingCapacity) && a.tail == drain.tail {
      var pass, d, nb := ArcOrigin(g, capacity, infinity, buildingCapacity, a);
      if pass != 2 {
        CellNodesBelow(g, d);
      }
    }
  }

  /** Each relevant building cell is a single node with an arc of capacity
      `Infinity` to its own building's sink node; off the river border that
      is the only arc leaving it, so building cells get no neighbour arcs. */
  lemma BuildingCellArcs(g: Layer, capacity: seq<int>, infinity: int, buildingCapacity: int, c: int, a: Arc)
    requires g.WellFormed() && BuildingIdsResolvable(g)
    requires g.Has(c) && g.relevant[c] != 0 && g.buildingIds[c] != 0
    ensures HasNode(g, c, Single) && g.buildingIds[c] in BuildingNodes(g)
    ensures var feed := Arc(NodeId(g, c, Single), BuildingNodes(g)[g.buildingIds[c]], infinity);
            && feed in Arcs(g, capacity, infinity, buildingCapacity)
            && (a in Arcs(g, capacity, infinity, buildingCapacity) && a.tail == feed.tail && g.border[c] != 1
                ==> a == feed)
  {
    var ids := BuildingIds(g);
    assert ids[..|ids|] == ids;
    BuildingNodesShape(ids, BuildingBase(g), |ids|, g.buildingIds[c]);
    var feed := Arc(NodeId(g, c, Single), BuildingNodes(g)[g.buildingIds[c]], infinity);
    GatherHas(g.Size(), BuildingCellArcFn(g, infinity), c, feed);
    if a in Arcs(g, capacity, infinity, buildingCapacity) && a.tail == feed.tail && g.border[c] != 1 {
      var pass, d, nb := ArcOrigin(g, capacity, infinity, buildingCapacity, a);
      CellNodesBelow(g, c);
      if pass != 2 {
        CellNodesBelow(g, d);
      }
      if pass == 0 || pass == 3 || pass == 5 {
        NodeOwner(g, c, 0, d, 0);
      } else if pass == 4 {
        NodeOwner(g, c, 0, d, if IsSingle(g, d) then 0 else 1);
      }
    }
  }

  /** No arc joins two river-border cells. */
  lemma NoBorderToBorder(g: Layer, capacity: seq<int>, infinity: int, buildingCapacity: int, a: Arc, c: int, d: int)
    requires g.WellFormed() && a in Arcs(g, capacity, infinity, buildingCapacity)
    requires g.Has(c) && g.Has(d) && g.relevant[c] != 0 && g.relevant[d] != 0 && g.border[c] == 1 && g.border[d] == 1
    ensures !(a.tail == NodeId(g, c, Single) && a.head == NodeId(g, d, Single))
  {
    if a.tail == NodeId(g, c, Single) && a.head == NodeId(g, d, Single) {
      var pass, e, nb := ArcOrigin(g, capacity, infinity, buildingCapacity, a);
      CellNodesBelow(g, c);
      CellNodesBelow(g, d);
      if pass != 2 {
        CellNodesBelow(g, e);
      }
      if pass == 0 {
        NodeOwner(g, c, 0, e, 0);
      } else if pass == 3 {
        BuildingNodesShape(BuildingIds(g), BuildingBase(g), |BuildingIds(g)|, g.buildingIds[e]);
      } else if pass == 4 {
        NodeOwner(g, c, 0, e, if IsSingle(g, e) then 0 else 1);
        NodeOwner(g, d, 0, nb, 0);
      } else if pass == 5 {
        NodeOwner(g, d, 0, nb, 0);
      }
    }
  }

  /** For a river-border cell without a building every arc of the final pass
      repeats an arc of the neighbour pass. */
  lemma RiverArcsRepeatNeighborArcs(g: Layer, infinity: int, c: int, a: Arc)
    requires g.Has(c) && g.relevant[c] != 0 && g.border[c] == 1 && g.buildingIds[c] == 0
    requires a in RiverArcs(g, infinity, c)
    ensures a in NeighborArcs(g, infinity, c)
  {
    var nbs := EightNeighborhood(g.rows, g.cols, c);
    var nb := GatherOverWitness(nbs, RiverArcFn(g, infinity, c), a);
    GatherOverHas(nbs, NeighborArcFn(g, infinity, c), nb, a);
  }
}
