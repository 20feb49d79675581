/**
 * The raster the flood-protection core works on: a row-major `rows x cols`
 * grid of nodes, each carrying named per-node fields, as the landlab
 * `RasterModelGrid` provides them.  Node `nid` sits at row `nid / cols` and
 * column `nid % cols`.
 */
module RasterGrid {

  /** The row of node `id` (Python's `divmod(id, cols)[0]`; with a positive
      divisor floor division and Dafny's Euclidean division agree). */
  function RowOf(cols: nat, id: int): int
    requires cols > 0
  {
    id / cols
  }

  /** The column of node `id` (Python's `divmod(id, cols)[1]`). */
  function ColOf(cols: nat, id: int): int
    requires cols > 0
  {
    id % cols
  }

  /** `id` is the index of a node of a `rows x cols` grid. */
  predicate InGrid(rows: nat, cols: nat, id: int) {
    0 <= id < rows * cols
  }

  /** The node indices `0 .. n - 1` as a set. */
  function NodeSet(n: nat): (r: set<int>)
    ensures forall c :: c in r <==> 0 <= c < n
  {
    if n == 0 then {} else NodeSet(n - 1) + {n - 1}
  }

  /** `NodeSet(n)` holds `n` indices. */
  lemma {:induction false} NodeSetSize(n: nat)
    ensures |NodeSet(n)| == n
  {
    if n > 0 {
      NodeSetSize(n - 1);
      var smaller := NodeSet(n - 1);
      assert n - 1 !in smaller;
      assert NodeSet(n) == smaller + {n - 1};
      assert |smaller + {n - 1}| == |smaller| + 1;
    }
  }

  lemma MulMonotone(a: int, b: int, c: nat)
    requires a <= b
    ensures a * c <= b * c
  {
    assert b * c - a * c == (b - a) * c;
  }

  /** Division by `cols` recovers row and column from a row-major index. */
  lemma DivModUnique(x: int, cols: nat, r: int, c: int)
    requires cols > 0 && 0 <= c < cols && x == r * cols + c
    ensures x / cols == r && x % cols == c
  {
    var q, m := x / cols, x % cols;
    assert x == q * cols + m;
    assert (q - r) * cols == c - m;
    if q - r >= 1 {
      MulMonotone(1, q - r, cols);
    } else if q - r <= -1 {
      MulMonotone(q - r, -1, cols);
    }
  }

  /** Row `r`, column `c` of the grid is node `r * cols + c`. */
  lemma CellIndex(rows: nat, cols: nat, r: int, c: int)
    requires 0 <= r < rows && 0 <= c < cols
    ensures InGrid(rows, cols, r * cols + c)
    ensures RowOf(cols, r * cols + c) == r && ColOf(cols, r * cols + c) == c
  {
    MulMonotone(0, r, cols);
    MulMonotone(r + 1, rows, cols);
    assert (r + 1) * cols == r * cols + cols;
    DivModUnique(r * cols + c, cols, r, c);
  }

  /** Every node of the grid has a row and a column inside the grid. */
  lemma IndexCell(rows: nat, cols: nat, id: int)
    requires InGrid(rows, cols, id)
    ensures cols > 0
    ensures 0 <= RowOf(cols, id) < rows && 0 <= ColOf(cols, id) < cols
    ensures id == RowOf(cols, id) * cols + ColOf(cols, id)
  {
    var q := id / cols;
    if q >= rows {
      MulMonotone(rows, q, cols);
    }
  }

  /** The node `n` at offset `(dr, dc)` from `m` sits `dr` rows and `dc`
      columns away from it. */
  lemma Shifted(rows: nat, cols: nat, m: int, dr: int, dc: int, n: int)
    requires InGrid(rows, cols, m) && cols > 0
    requires 0 <= RowOf(cols, m) + dr < rows && 0 <= ColOf(cols, m) + dc < cols
    requires n - m == dr * cols + dc
    ensures InGrid(rows, cols, n) && RowOf(cols, n) == RowOf(cols, m) + dr && ColOf(cols, n) == ColOf(cols, m) + dc
  {
    IndexCell(rows, cols, m);
    var r, c := RowOf(cols, m) + dr, ColOf(cols, m) + dc;
    assert dr * cols == r * cols - RowOf(cols, m) * cols;
    assert n == r * cols + c;
    CellIndex(rows, cols, r, c);
  }

  /**
   * The grid and its per-node fields.  Elevation, river membership, building
   * ids and node coordinates are written before the core runs and only read
   * by it; `borderOfRiver` and `relevant` are the two fields the core
   * computes, each a fresh zero-filled array when it is added.
   */
  class RasterGrid {
    const rows: nat
    const cols: nat
    /** `topographic__elevation` */
    const elevation: seq<real>
    /** `river`: positive inside a river polygon */
    const river: seq<int>
    /** `building_ids`: 0 means no building */
    const buildingIds: seq<int>
    /** `node_x`, `node_y` */
    const nodeX: seq<real>
    const nodeY: seq<real>
    /** `border_of_river` */
    var borderOfRiver: array<int>
    /** `relevant` */
    var relevant: array<int>

    function NumberOfNodes(): nat {
      rows * cols
    }

    ghost predicate Valid()
      reads this, borderOfRiver, relevant
    {
      && |elevation| == |river| == |buildingIds| == |nodeX| == |nodeY| == rows * cols
      && borderOfRiver.Length == rows * cols
      && relevant.Length == rows * cols
      && borderOfRiver != relevant
      && (forall i :: 0 <= i < borderOfRiver.Length ==> borderOfRiver[i] == 0 || borderOfRiver[i] == 1)
      && (forall i :: 0 <= i < relevant.Length ==> relevant[i] == 0 || relevant[i] == 1)
    }

    constructor (rows: nat, cols: nat, elevation: seq<real>, river: seq<int>, buildingIds: seq<int>,
                 nodeX: seq<real>, nodeY: seq<real>)
      requires |elevation| == |river| == |buildingIds| == |nodeX| == |nodeY| == rows * cols
      ensures Valid() && fresh(borderOfRiver) && fresh(relevant)
      ensures this.rows == rows && this.cols == cols && this.elevation == elevation
      ensures this.river == river && this.buildingIds == buildingIds
      ensures this.nodeX == nodeX && this.nodeY == nodeY
      ensures forall i :: 0 <= i < rows * cols ==> borderOfRiver[i] == 0 && relevant[i] == 0
    {
      this.rows, this.cols := rows, cols;
      this.elevation, this.river, this.buildingIds := elevation, river, buildingIds;
      this.nodeX, this.nodeY := nodeX, nodeY;
      borderOfRiver := new int[rows * cols](_ => 0);
      relevant := new int[rows * cols](_ => 0);
    }
  }
}
