# Flood protection as a minimum cut — a verified model of the core

The repository decides where to build flood barriers along a river. The
terrain is a raster grid with these per-cell fields: elevation, river
membership and building ids. The decision works in three steps:

- Select the cells that matter.
- Turn them into a flow network where cutting a cell costs what raising it
  above the water level costs, and losing a building costs a flat weight.
- Read the barrier cells and the flooded buildings back from a minimum cut.

This project models the two classes that do that work, and the grid they
work on.

- `RasterGrid` (`raster_grid.dfy`) stands in for the landlab raster grid:
  - the `rows x cols` shape and the read-only per-node fields, as sequences;
  - the two fields the core computes, `border_of_river` and `relevant`, as
    arrays that the core replaces with fresh zero-filled ones;
  - the row-major index arithmetic (`divmod`, `unravel_index`).
- `RelevantGridGetter` (`relevant_grid_getter.dfy`) is the class of the same
  name.
  - `GetNeighbors` returns the 4-neighbourhood. Lemmas prove it is exactly
    4-adjacency, in both directions, and that it is symmetric.
  - `GetBorderOfRiver` marks the river cells that have a dry 4-neighbour.
  - `GetRelevantNodes` runs the worklist flood fill.
  - The flood fill is proved to end in one field, `FinalField`. It is a
    function of the terrain alone. A cell off the river border is relevant
    when a flood path from the river border reaches it, it lies at or below
    the critical height and its value is 1. A river-border cell keeps its
    flag 1 unless it lies at or below the critical height with value 0. So
    the result does not depend on the order in which the set-based worklist
    is popped.
- `MinCutGraph` (`min_cut_graph.dfy`) is the network `build_graph`
  produces, written as functions of the grid:
  - the node ids and their categories and positions, `node_map` and the
    building sinks;
  - the arc list, pass by pass, in the order the builder appends it;
  - lemmas about the network: which arcs exist and where they come from,
    the node-splitting property, the source and sink wiring, and the
    building arcs.
- `MinCutInstance` (`min_cut_instance.dfy`) is the class of the same name.
  - `BuildGraph` fills `node_map`, `categories`, `node_positions` and `arcs`
    pass by pass. Each pass is a loop proved against the specification
    function of that pass.
  - `EightNeighbors` is the nested-loop 8-neighbourhood.
  - `GetCutCells` and `GetBuildingsInCut` decode a cut, given as its
    source-side and sink-side node sets. Each is proved against a
    characterisation in terms of the grid.

## Model

| member | source | states |
|---|---|---|
| RasterGrid.RasterGrid.constructor | main.py:20-26 | the grid is created with its static per-node fields; the two fields the core computes start as fresh zero-filled arrays of one entry per node |
| RasterGrid.CellIndex | MinCutInstance/min_cut_intsance.py:25-27 | `r * ncols + c` of an in-grid row and column is a node of the grid whose row and column are `r` and `c` again |
| RasterGrid.IndexCell | RelevantGridGetter/relevant_grid_getter.py:10 | `divmod(node_id, cols)` of a node gives a row below `rows` and a column below `cols` that recompose the index |
| RasterGrid.Shifted | MinCutInstance/min_cut_intsance.py:25-27 | the node `dr * cols + dc` away from `m` lies `dr` rows and `dc` columns away, when that position is in the grid |
| RelevantGridGetter.Neighbors4Shape | RelevantGridGetter/relevant_grid_getter.py:8-20 | at most four neighbours, pairwise distinct, each inside the grid and one row above or below, or in the same row one column left or right (no wrap-around between rows) |
| RelevantGridGetter.Neighbors4Adjacent | RelevantGridGetter/relevant_grid_getter.py:8-20 | a node is listed exactly when it is in the grid and 4-adjacent (same row or column, one step apart) |
| RelevantGridGetter.NeighborIsAdjacent | RelevantGridGetter/relevant_grid_getter.py:12-19 | every listed neighbour is in the grid and 4-adjacent |
| RelevantGridGetter.AdjacentIsNeighbor | RelevantGridGetter/relevant_grid_getter.py:12-19 | every 4-adjacent node of the grid is listed |
| RelevantGridGetter.Neighbors4Symmetric | RelevantGridGetter/relevant_grid_getter.py:8-20 | `n` is a neighbour of `m` exactly when `m` is a neighbour of `n` |
| RelevantGridGetter.GridNeighbors | RelevantGridGetter/relevant_grid_getter.py:8-20 | the neighbour list of an in-grid node only holds in-grid nodes, so the callers' field reads are in range |
| RelevantGridGetter.Value | RelevantGridGetter/relevant_grid_getter.py:49-59 | the value a popped cell receives is 0 or 1 |
| RelevantGridGetter.FinalField | RelevantGridGetter/relevant_grid_getter.py:36-65 | one entry per node, each the cell's final relevance |
| RelevantGridGetter.BorderReached | RelevantGridGetter/relevant_grid_getter.py:38-39 | every river-border cell is popped at least once (it seeds the worklist) |
| RelevantGridGetter.ReachedClosed | RelevantGridGetter/relevant_grid_getter.py:62-65 | a reached cell that is open with value 1 makes each of its 4-neighbours reached |
| RelevantGridGetter.ClosedSetHoldsReached | RelevantGridGetter/relevant_grid_getter.py:43-65 | any set holding the border and closed under expansion holds every reached cell, so every reached cell is popped at some point |
| RelevantGridGetter.FinalRelevantMeaning | RelevantGridGetter/relevant_grid_getter.py:36-65 | off the border a cell ends relevant exactly when reached and open with value 1; a border cell ends irrelevant exactly when open with value 0 |
| RelevantGridGetter.NotRelevantCells | RelevantGridGetter/relevant_grid_getter.py:47-59 | a non-border cell above the critical height, or inside a building footprint, never becomes relevant |
| RelevantGridGetter.NoBorderNothingRelevant | RelevantGridGetter/relevant_grid_getter.py:36-43 | without river-border cells nothing is reached and nothing is relevant |
| RelevantGridGetter.FieldAfterVisit | RelevantGridGetter/relevant_grid_getter.py:47-61 | visiting a node writes only that node's entry: its value when it is open, the old entry otherwise |
| RelevantGridGetter.ProgressInit | RelevantGridGetter/relevant_grid_getter.py:36-39 | the copy of the border field and the queue of border cells satisfy the propagation invariant |
| RelevantGridGetter.ProgressStep | RelevantGridGetter/relevant_grid_getter.py:44-65 | one pop-and-visit step keeps the propagation invariant |
| RelevantGridGetter.ProgressDone | RelevantGridGetter/relevant_grid_getter.py:43 | when the queue is empty the field is `FinalField` |
| RelevantGridGetter.RelevantGridGetter.constructor | RelevantGridGetter/relevant_grid_getter.py:4-5 | the getter keeps the grid it is given |
| RelevantGridGetter.RelevantGridGetter.GetNeighbors | RelevantGridGetter/relevant_grid_getter.py:8-20 | the list is `Neighbors4`: up, down, left, right, where present |
| RelevantGridGetter.RelevantGridGetter.GetBorderOfRiver | RelevantGridGetter/relevant_grid_getter.py:22-30 | a fresh `border_of_river` field is 1 exactly at river cells with a 4-neighbour outside the river, else 0; `relevant` is untouched |
| RelevantGridGetter.RelevantGridGetter.VisitNode | RelevantGridGetter/relevant_grid_getter.py:46-65 | the field becomes `FieldAfterVisit`; the new queue is the old one plus the not-yet-relevant neighbours of an expanding node, and unchanged otherwise |
| RelevantGridGetter.RelevantGridGetter.PopAndVisit | RelevantGridGetter/relevant_grid_getter.py:43-65 | popping any member of the queue keeps the propagation invariant, and either grows the set of expanded cells or shrinks the queue |
| RelevantGridGetter.RelevantGridGetter.Propagate | RelevantGridGetter/relevant_grid_getter.py:43-65 | whatever order the queue is popped in, the loop ends with the field equal to `FinalField` |
| RelevantGridGetter.RelevantGridGetter.GetRelevantNodes | RelevantGridGetter/relevant_grid_getter.py:32-66 | a fresh `relevant` field equals `FinalField` for the critical height `river_height + elevation_threshold` (defaults 380 and 1); the border field is kept |
| MinCutGraph.TruncToInt | MinCutInstance/min_cut_intsance.py:86 | Python's `int()` on a float: truncation toward zero, within one unit of the argument |
| MinCutGraph.Infinity | MinCutInstance/min_cut_intsance.py:14 | `int(int(1e9) * scaling_factor)` is non-negative and within one unit of `1e9 * scaling_factor` |
| MinCutGraph.SplitCapacity | MinCutInstance/min_cut_intsance.py:83-86 | the in -> out capacity is non-negative, and zero when the cell lies at or above the water height |
| MinCutGraph.BuildingCapacity | MinCutInstance/min_cut_intsance.py:111 | a building sink's capacity is non-negative for a non-negative weight and scaling factor |
| MinCutGraph.HitAt | MinCutInstance/min_cut_intsance.py:23-27 | offset `(dr, dc)` lists `n` exactly when it is not the zero offset and `n` lies at that offset inside the grid |
| MinCutGraph.EightNeighborhoodAdjacent | MinCutInstance/min_cut_intsance.py:17-28 | a node is listed exactly when it is in the grid and 8-adjacent (at most one row and one column away, not the node itself) |
| MinCutGraph.EightNeighborhoodShape | MinCutInstance/min_cut_intsance.py:17-28 | at most eight neighbours, never the node itself, all in the grid; the relation is symmetric |
| MinCutGraph.InsertSorted | MinCutInstance/min_cut_intsance.py:104 | inserting into a strictly increasing list keeps it strictly increasing, and its members are the old ones plus the new one |
| MinCutGraph.UniquePositive | MinCutInstance/min_cut_intsance.py:104 | `np.unique(bldg_ids[bldg_ids > 0])` is strictly increasing and holds exactly the positive ids of the grid |
| MinCutGraph.SplitCapacities | MinCutInstance/min_cut_intsance.py:83-86 | one capacity per cell, non-negative, zero for cells at or above the water height |
| MinCutGraph.OffsetMonotone | MinCutInstance/min_cut_intsance.py:53-87 | ids handed out to earlier cells stay below those of later cells |
| MinCutGraph.CellNodesBelow | MinCutInstance/min_cut_intsance.py:53-92 | every cell node's id lies below the source id |
| MinCutGraph.NodeOwner | MinCutInstance/min_cut_intsance.py:57-81 | the id ranges two different cells receive do not overlap |
| MinCutGraph.NodeMapShape | MinCutInstance/min_cut_intsance.py:57-81 | after the first `k` cells `node_map` has key `(c, role)` exactly when `c < k` is relevant and has that role (single for border or building cells, in/out otherwise), with the id the counter gave it |
| MinCutGraph.NodeIdsDistinct | MinCutInstance/min_cut_intsance.py:57-81 | cell node ids are below the source id and distinct for distinct keys |
| MinCutGraph.NodeIdsCover | MinCutInstance/min_cut_intsance.py:57-81 | every id below the counter belongs to some cell's key |
| MinCutGraph.CellCategoriesShape | MinCutInstance/min_cut_intsance.py:57-78 | the cell pass gives categories and positions to exactly the ids below the counter |
| MinCutGraph.CellCategoryAt | MinCutInstance/min_cut_intsance.py:63-78 | a cell node is tagged `river` (border), `building`, `normal_in` or `normal_out` by its role, at the cell's coordinates |
| MinCutGraph.CellCategoriesNotSink | MinCutInstance/min_cut_intsance.py:63-78 | the cell pass tags no node as a building sink |
| MinCutGraph.SinkCategoriesShape | MinCutInstance/min_cut_intsance.py:103-109 | the building pass tags ids `base .. base + k - 1` as building sinks and leaves every other entry alone |
| MinCutGraph.SinkPositionsShape | MinCutInstance/min_cut_intsance.py:103-108 | the `i`-th building sink is placed at `(0, -2 * id)` and every other entry is left alone |
| MinCutGraph.CategoriesShape | MinCutInstance/min_cut_intsance.py:57-111 | `categories` and `node_positions` cover exactly the ids `0 .. n - 1`; source and sink carry their tags and sentinel positions; the ids from the first building sink on are exactly the building sinks |
| MinCutGraph.BuildingNodesShape | MinCutInstance/min_cut_intsance.py:104-107 | after `k` ids `building_nodes` maps exactly those ids, the `i`-th to `base + i` |
| MinCutGraph.BuildingNodesKeys | MinCutInstance/min_cut_intsance.py:103-107 | `building_nodes` has exactly the positive ids of the grid as keys, each mapped to the sink node of its position in the unique list |
| MinCutGraph.ArcOrigin | MinCutInstance/min_cut_intsance.py:56-165 | every arc comes from one of the six passes, with that pass's endpoints, capacity and guard |
| MinCutGraph.ArcEndpoints | MinCutInstance/min_cut_intsance.py:56-165 | every arc joins two nodes of the network; no arc enters the source or leaves the sink |
| MinCutGraph.SourceArcOrigin | MinCutInstance/min_cut_intsance.py:98-101 | every arc leaving the source goes to the single node of a relevant river-border cell, with infinite capacity |
| MinCutGraph.SourceFeedsBorder | MinCutInstance/min_cut_intsance.py:98-101 | every relevant river-border cell receives such an arc |
| MinCutGraph.SplitArcOnly | MinCutInstance/min_cut_intsance.py:83-87 | a split cell's in -> out arc is present and is the only arc leaving the in-node and the only one entering the out-node (node splitting) |
| MinCutGraph.BuildingSinkArcs | MinCutInstance/min_cut_intsance.py:103-111 | each building sink stands for a positive id of the grid, is tagged as such, and has exactly one outgoing arc: to the sink, with the building capacity |
| MinCutGraph.BuildingCellArcs | MinCutInstance/min_cut_intsance.py:113-128 | each relevant building cell has an infinite arc to its own building's sink; off the river border that is its only outgoing arc |
| MinCutGraph.NoBorderToBorder | MinCutInstance/min_cut_intsance.py:135-136 | no arc joins two river-border cells |
| MinCutGraph.RiverArcsRepeatNeighborArcs | MinCutInstance/min_cut_intsance.py:156-165 | for a border cell without a building, every arc of the final pass repeats an arc of the neighbour pass |
| MinCutInstance.EightNeighbors | MinCutInstance/min_cut_intsance.py:17-28 | the nested loops over offsets -1, 0, 1 produce `EightNeighborhood`, whose meaning is 8-adjacency |
| MinCutInstance.DecodeSinkPosition | MinCutInstance/min_cut_intsance.py:321-323 | `int(abs(y) / 2)` recovers `b_id` from the position `(0, -2 * b_id)` the builder gave its sink |
| MinCutInstance.CutCellAt | MinCutInstance/min_cut_intsance.py:291-301 | a cell is cut exactly when `node_map` has its in- and out-node, with the in-node on the source side and the out-node on the sink side |
| MinCutInstance.CutCellsMeaning | MinCutInstance/min_cut_intsance.py:283-303 | on the built network a cell is cut exactly when it is split, its in-node is on the source side and its out-node on the sink side |
| MinCutInstance.FloodedAfterShape | MinCutInstance/min_cut_intsance.py:319-324 | the decoded list is strictly increasing and holds exactly those of the first `k` ids whose sink node is on the source side |
| MinCutInstance.FloodedMeaning | MinCutInstance/min_cut_intsance.py:305-326 | the flooded buildings are listed once each, in ascending order, and are exactly the ids whose building sink is on the source side |
| MinCutInstance.CategoryCount | MinCutInstance/min_cut_intsance.py:57-111 | the network has one category entry per node id handed out |
| MinCutInstance.MinCutInstance.constructor | MinCutInstance/min_cut_intsance.py:6-14 | keeps the grid, the building weight (default 1) and the scaling factor (default 10^6); empty tables and arc list; `infinity` is `int(int(1e9) * scaling_factor)` |
| MinCutInstance.MinCutInstance.BuildGraph | MinCutInstance/min_cut_intsance.py:16-167 | `node_map`, `categories` and `node_positions` become the specification tables and `arcs` the six passes of `Arcs`; source and sink are the two ids after the cell nodes |
| MinCutInstance.MinCutInstance.AddCellNodes | MinCutInstance/min_cut_intsance.py:56-87 | the cell pass builds the cell part of the three tables and the in -> out arcs, and returns the next free id |
| MinCutInstance.MinCutInstance.AddCellNode | MinCutInstance/min_cut_intsance.py:57-87 | one cell adds nothing if irrelevant, one single node if on the border or a building, else an in/out pair and its arc |
| MinCutInstance.MinCutInstance.AddSourceArcs | MinCutInstance/min_cut_intsance.py:98-101 | appends the source pass, visiting `node_map` in insertion (cell) order |
| MinCutInstance.MinCutInstance.AddBuildingSinks | MinCutInstance/min_cut_intsance.py:103-111 | returns `building_nodes`, completes categories and positions, and appends one sink arc per unique positive id |
| MinCutInstance.MinCutInstance.AddBuildingSink | MinCutInstance/min_cut_intsance.py:104-111 | one building id gets the next id, the building-sink tag, the position `(0, -2 * id)` and its arc to the sink |
| MinCutInstance.MinCutInstance.AddBuildingCellArcs | MinCutInstance/min_cut_intsance.py:113-120 | appends the building-cell pass |
| MinCutInstance.MinCutInstance.AddNeighborArcs | MinCutInstance/min_cut_intsance.py:122-154 | appends the neighbour pass of every relevant non-building cell |
| MinCutInstance.MinCutInstance.AddNeighborArcsOf | MinCutInstance/min_cut_intsance.py:130-154 | appends one cell's neighbour arcs, in neighbour order |
| MinCutInstance.MinCutInstance.AddRiverArcs | MinCutInstance/min_cut_intsance.py:156-165 | appends the final pass of every relevant river-border cell |
| MinCutInstance.MinCutInstance.AddRiverArcsOf | MinCutInstance/min_cut_intsance.py:161-165 | appends one border cell's arcs to its neighbours' in-nodes, in neighbour order |
| MinCutInstance.MinCutInstance.GetCutCells | MinCutInstance/min_cut_intsance.py:283-303 | the cut cells in `node_map` order: strictly increasing, and exactly the cells of the cut set |
| MinCutInstance.MinCutInstance.GetBuildingsInCut | MinCutInstance/min_cut_intsance.py:305-326 | the flooded building ids, decoded from sink positions in `categories` order, equal `Flooded` |
| MinCutInstance.MinCutInstance.NodeCountOf | MinCutInstance/min_cut_intsance.py:319 | once built, `categories` holds one entry per network node |

Behaviour of the code that is easy to misread; the model follows the code:

- A river-border cell can end with `relevant` 0. A popped border cell at
  or below the critical height gets value 0, and that value is written, in
  two cases: it lies inside a building footprint, or its river count
  exceeds its border flag, that is, it is 2 or more (line 51 of
  `RelevantGridGetter/relevant_grid_getter.py`; `main.py` line 40 adds 1
  per overlapping river polygon). `FinalRelevantMeaning` states when this
  happens, so relevance is not only ever added.
- Only relevant building cells get an arc to their building's sink, since
  the pass skips irrelevant cells.
- The final river pass does not only repeat neighbour arcs. For border
  cells without a building it does (`RiverArcsRepeatNeighborArcs`). Border
  cells that carry a building are skipped by the neighbour pass and get
  their arcs only from the final pass. Both passes are modelled as
  written.
- `get_cut_cells` and `get_buildings_in_cut` return lists in dictionary
  insertion order, which is ascending cell index and ascending node id.
  The model iterates in that order and proves the lists strictly
  increasing.

## Left out

- `run_max_flow`, `run_min_cut`, `get_min_cut`: the OR-Tools max-flow
  solver is external. The decoders take the cut as its source-side and
  sink-side node sets instead of a solved solver object.
- `visualize`: plotting only.
- SplitCapacity: the capacity is `int(max(0, h - e) * scaling_factor)`,
  without the `round(cap, 2)` step, because decimal rounding of binary
  floats is not modelled. Elevations, heights, weights and positions are
  exact reals, not IEEE doubles.
- `Infinity`, `SplitCapacity`, `BuildingCapacity`: capacities are unbounded
  integers. The 64-bit limits of the solver are not modelled.
- BuildGraph: requires every relevant building cell to carry a positive id
  (`BuildingIdsResolvable`). For a negative id the source raises a
  `KeyError` at line 120 of `MinCutInstance/min_cut_intsance.py`; the model
  has no exception path for it.
- `GetCutCells`, `GetBuildingsInCut`: require the network to have been
  built by `BuildGraph` (`Built`), since a cut only exists for a built
  network.
- The neighbour pass's `else: continue` branches (lines 143-144 and
  151-152) cannot be taken for a built network (`NeighborEnds`), so the
  model looks nodes up with if-expressions instead.
- The worklist pop of `get_relevant_nodes` is modelled as a choice of any
  member of the set. The set iteration order of CPython is not modelled,
  and the result is proved not to depend on it.
- The landlab grid (`RasterModelGrid`, `add_zeros`, `at_node`) is not part
  of this model. The grid is a class with the fields the core reads and
  writes, and it holds both computed fields from its creation on.
- RelevantGridGetter.GetRelevantNodes: the failure of `get_relevant_nodes`
  when it runs before `get_border_of_river` is not modelled. The source
  then reads a `border_of_river` field that does not exist yet (lines 36
  and 38); the model reads the zero-filled field and returns an all-zero
  `relevant`.
- RelevantGridGetter.GetBorderOfRiver, RelevantGridGetter.GetRelevantNodes:
  a second call of either method is not modelled as a failure. In the
  source it runs `add_zeros` on a field that already exists (lines 23 and
  33), which landlab refuses unless `clobber` is set; the model allocates a
  fresh zero-filled array instead.
- `utils/compute_min_cut_solution.py` (flow value and sandbag cost),
  `IntegerProgram`, `main.py`, `old_files`, `ElevationModifier`,
  `DataReader`, `BayernAtlas` and `CoordinateConversion` are not part of
  this model.
