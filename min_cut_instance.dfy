/**
 * The min-cut instance: it turns an annotated grid into the flow network of
 * `MinCutGraph`, and reads a cut of that network back as grid cells and
 * building ids.  The maximum-flow solver is not part of this model: a cut is
 * given as its source side and its sink side, two sets of node ids.
 */
module MinCutInstance {
  import opened RasterGrid
  import opened MinCutGraph

  // ---------------------------------------------------------------------
  // The 8-neighbourhood, as the builder's nested loops compute it
  // ---------------------------------------------------------------------

  /** The in-grid 8-neighbours of node `nid`, row offset major. */
  method EightNeighbors(rows: nat, cols: nat, nid: int) returns (neighbors: seq<int>)
    requires InGrid(rows, cols, nid)
    ensures neighbors == EightNeighborhood(rows, cols, nid)
  {
    IndexCell(rows, cols, nid);
    var row, col := nid / cols, nid % cols;
    var offsets := [-1, 0, 1];
    neighbors := [];
    for i := 0 to 3
      invariant neighbors == RingHits(rows, cols, row, col, i)
    {
      var dr := offsets[i];
      ghost var ring := RingHits(rows, cols, row, col, i);
      for j := 0 to 3
        invariant neighbors == ring + RowHits(rows, cols, row, col, dr, j)
      {
        var dc := offsets[j];
        RowHitsStep(ring, rows, cols, row, col, dr, j);
        if dr == 0 && dc == 0 {
          continue;
        }
        var r, c := row + dr, col + dc;
        if 0 <= r < rows && 0 <= c < cols {
          neighbors := neighbors + [r * cols + c];
        }
      }
    }
  }

  /** The next column offset of the inner loop appends its hit. */
  lemma RowHitsStep(prefix: seq<int>, rows: nat, cols: nat, row: int, col: int, dr: int, j: nat)
    ensures prefix + RowHits(rows, cols, row, col, dr, j + 1)
            == (prefix + RowHits(rows, cols, row, col, dr, j)) + Hit(rows, cols, row, col, dr, j - 1)
  {
  }

  // ---------------------------------------------------------------------
  // Reading a cut back
  // ---------------------------------------------------------------------

  /** The cells whose in-node lies on the source side and whose out-node
      lies on the sink side: their in -> out arc crosses the cut. */
  function CutCellSet(nodeMap: map<(int, Role), int>, sourceSide: set<int>, sinkSide: set<int>): set<int> {
    set k | k in nodeMap && k.1 == In && (k.0, Out) in nodeMap
              && nodeMap[k] in sourceSide && nodeMap[(k.0, Out)] in sinkSide :: k.0
  }

  /** The building id a building sink's position encodes: `int(abs(y) / 2)`. */
  function DecodeBuildingId(y: real): int {
    TruncToInt((if y < 0.0 then -y else y) / 2.0)
  }

  /** The ids of the buildings among the first `k` of `ids` whose sink node
      (`base + i` for the `i`-th id) lies on the source side. */
  function FloodedAfter(ids: seq<int>, base: int, sourceSide: set<int>, k: nat): seq<int>
    requires k <= |ids|
  {
    if k == 0 then []
    else FloodedAfter(ids, base, sourceSide, k - 1) + if base + k - 1 in sourceSide then [ids[k - 1]] else []
  }

  /** The flooded buildings of the network built from `g`. */
  function Flooded(g: Layer, sourceSide: set<int>): seq<int>
    requires g.WellFormed()
  {
    FloodedAfter(BuildingIds(g), BuildingBase(g), sourceSide, |BuildingIds(g)|)
  }

  /** A building sink's position decodes to its building id. */
  lemma DecodeSinkPosition(b: int)
    requires b >= 0
    ensures DecodeBuildingId(SinkPosition(b).1) == b
  {
    assert SinkPosition(b).1 == -(b as real) * 2.0;
    assert (b as real * 2.0) / 2.0 == b as real;
  }

  /** Appending a value above every element keeps a sequence strictly
      increasing. */
  lemma IncreasingAppend(s: seq<int>, x: int)
    requires StrictlyIncreasing(s) && forall y :: y in s ==> y < x
    ensures StrictlyIncreasing(s + [x])
  {
    var r := s + [x];
    forall i, j | 0 <= i < j < |r|
      ensures r[i] < r[j]
    {
      assert r[i] == s[i] && s[i] in s;
      if j < |s| {
        assert r[j] == s[j];
      }
    }
  }

  /** Cell `c` is in the cut set exactly when it has both an in-node on the
      source side and an out-node on the sink side. */
  lemma CutCellAt(nodeMap: map<(int, Role), int>, sourceSide: set<int>, sinkSide: set<int>, c: int)
    ensures c in CutCellSet(nodeMap, sourceSide, sinkSide) <==>
              && (c, In) in nodeMap && (c, Out) in nodeMap
              && nodeMap[(c, In)] in sourceSide && nodeMap[(c, Out)] in sinkSide
  {
    if (c, In) in nodeMap && (c, Out) in nodeMap && nodeMap[(c, In)] in sourceSide && nodeMap[(c, Out)] in sinkSide {
      var k := (c, In);
      assert k.0 == c;
    }
  }

  /** A cell is cut exactly when it is split into an in/out pair, its in-node
      is on the source side and its out-node on the sink side; its in -> out
      arc is then an arc of the network. */
  lemma CutCellsMeaning(g: Layer, sourceSide: set<int>, sinkSide: set<int>, c: int)
    requires g.WellFormed()
    ensures c in CutCellSet(NodeMap(g), sourceSide, sinkSide) <==>
              && g.Has(c) && IsSplit(g, c)
              && NodeId(g, c, In) in sourceSide && NodeId(g, c, Out) in sinkSide
  {
    NodeMapShape(g, g.Size(), c, In);
    NodeMapShape(g, g.Size(), c, Out);
    CutCellAt(NodeMap(g), sourceSide, sinkSide, c);
  }

  /** Elements of `FloodedAfter` come from the first `k` ids, in their
      order. */
  lemma {:induction false} FloodedAfterShape(ids: seq<int>, base: int, sourceSide: set<int>, k: nat, b: int)
    requires StrictlyIncreasing(ids) && k <= |ids|
    ensures StrictlyIncreasing(FloodedAfter(ids, base, sourceSide, k))
    ensures b in FloodedAfter(ids, base, sourceSide, k) <==>
              exists i :: 0 <= i < k && ids[i] == b && base + i in sourceSide
    ensures forall x :: x in FloodedAfter(ids, base, sourceSide, k) ==> k > 0 && x <= ids[k - 1]
  {
    if k > 0 {
      FloodedAfterShape(ids, base, sourceSide, k - 1, b);
      var prev := FloodedAfter(ids, base, sourceSide, k - 1);
      assert forall x :: x in prev ==> x < ids[k - 1] by {
        forall x | x in prev
          ensures x < ids[k - 1]
        {
          FloodedAfterShape(ids, base, sourceSide, k - 1, x);
          var i :| 0 <= i < k - 1 && ids[i] == x && base + i in sourceSide;
        }
      }
      if base + k - 1 in sourceSide {
        var r := prev + [ids[k - 1]];
        assert FloodedAfter(ids, base, sourceSide, k) == r;
        forall i, j | 0 <= i < j < |r|
          ensures r[i] < r[j]
        {
          if j == |r| - 1 {
            assert r[i] in prev by { assert r[i] == prev[i]; }
          }
        }
        if b == ids[k - 1] {
          assert 0 <= k - 1 < k && ids[k - 1] == b && base + (k - 1) in sourceSide;
        }
      } else {
        assert FloodedAfter(ids, base, sourceSide, k) == prev;
      }
      if exists i :: 0 <= i < k && ids[i] == b && base + i in sourceSide {
        var i :| 0 <= i < k && ids[i] == b && base + i in sourceSide;
        if i < k - 1 {
          assert b in prev;
        }
      }
    }
  }

  /** The flooded buildings are listed in ascending id order, without
      repetition, and are exactly the buildings whose sink node lies on the
      source side. */
  lemma FloodedMeaning(g: Layer, sourceSide: set<int>, b: int)
    requires g.WellFormed()
    ensures StrictlyIncreasing(Flooded(g, sourceSide))
    ensures b in Flooded(g, sourceSide) <==> b in BuildingNodes(g) && BuildingNodes(g)[b] in sourceSide
  {
    var ids, base, sinks := BuildingIds(g), BuildingBase(g), BuildingNodes(g);
    BuildingNodesKeys(g, b);
    FloodedBySink(ids, base, sourceSide, sinks, b);
  }

  /** `FloodedMeaning` for any list of ids and any map from ids to their
      sink nodes `base + index`. */
  lemma FloodedBySink(ids: seq<int>, base: int, sourceSide: set<int>, sinks: map<int, int>, b: int)
    requires StrictlyIncreasing(ids)
    requires b in sinks <==> b in ids
    requires b in sinks ==> 0 <= sinks[b] - base < |ids| && ids[sinks[b] - base] == b
    ensures StrictlyIncreasing(FloodedAfter(ids, base, sourceSide, |ids|))
    ensures b in FloodedAfter(ids, base, sourceSide, |ids|) <==> b in sinks && sinks[b] in sourceSide
  {
    FloodedAfterShape(ids, base, sourceSide, |ids|, b);
    if b in FloodedAfter(ids, base, sourceSide, |ids|) {
      var i :| 0 <= i < |ids| && ids[i] == b && base + i in sourceSide;
      assert b in ids;
      var j := sinks[b] - base;
      assert ids[j] == ids[i];
    }
    if b in sinks && sinks[b] in sourceSide {
      var i := sinks[b] - base;
      assert 0 <= i < |ids| && ids[i] == b && base + i in sourceSide;
    }
  }

  /** The network has `NodeCount` nodes, each with a category. */
  lemma CategoryCount(g: Layer)
    requires g.WellFormed()
    ensures |Categories(g)| == NodeCount(g)
  {
    var keys := Categories(g).Keys;
    forall id
      ensures id in keys <==> id in NodeSet(NodeCount(g))
    {
      CategoriesShape(g, id);
    }
    assert keys == NodeSet(NodeCount(g));
    NodeSetSize(NodeCount(g));
  }

  // ---------------------------------------------------------------------
  // One step of each builder loop, against the pass it builds
  // ---------------------------------------------------------------------

  /** The next item of a pass appends its piece to the arcs built so far. */
  lemma GatherStep(prefix: seq<Arc>, k: nat, f: int -> seq<Arc>)
    ensures prefix + Gather(k + 1, f) == (prefix + Gather(k, f)) + f(k)
  {
    assert Gather(k + 1, f) == Gather(k, f) + f(k);
  }

  lemma GatherOverStep(prefix: seq<Arc>, s: seq<int>, j: nat, f: int -> seq<Arc>)
    requires j < |s|
    ensures prefix + GatherOver(s[..j + 1], f) == (prefix + GatherOver(s[..j], f)) + f(s[j])
  {
    assert s[..j + 1][..j] == s[..j];
    assert GatherOver(s[..j + 1], f) == GatherOver(s[..j], f) + f(s[j]);
  }

  /** Cell `nid`'s piece of the cell pass is its in -> out arc when it is
      split, with the capacity `max(0, waterHeight - elevation)` scaled. */
  lemma SplitPiece(g: Layer, waterHeight: real, scalingFactor: real, nid: nat)
    requires g.WellFormed() && nid < g.Size()
    ensures SplitArcFn(g, SplitCapacities(g, waterHeight, scalingFactor))(nid)
            == if g.relevant[nid] == 0 || g.border[nid] == 1 || g.buildingIds[nid] != 0 then []
               else [Arc(Offset(g, nid), Offset(g, nid) + 1, SplitCapacity(waterHeight, g.elevation[nid], scalingFactor))]
  {
  }

  /** An irrelevant cell adds nothing to `node_map`, `categories` and
      `node_positions`. */
  lemma CellSkipped(g: Layer, nid: nat)
    requires g.WellFormed() && nid < g.Size() && g.relevant[nid] == 0
    ensures Offset(g, nid + 1) == Offset(g, nid)
    ensures NodeMapAfter(g, nid + 1) == NodeMapAfter(g, nid)
    ensures CategoriesAfter(g, nid + 1) == CategoriesAfter(g, nid)
    ensures PositionsAfter(g, nid + 1) == PositionsAfter(g, nid)
  {
  }

  /** A relevant river-border or building cell adds one node. */
  lemma CellSingle(g: Layer, nid: nat)
    requires g.WellFormed() && nid < g.Size() && g.relevant[nid] != 0
    requires g.border[nid] == 1 || g.buildingIds[nid] != 0
    ensures var o := Offset(g, nid);
      && Offset(g, nid + 1) == o + 1
      && NodeMapAfter(g, nid + 1) == NodeMapAfter(g, nid)[(nid, Single) := o]
      && CategoriesAfter(g, nid + 1)
         == CategoriesAfter(g, nid)[o := if g.border[nid] == 1 then River else Building]
      && PositionsAfter(g, nid + 1) == PositionsAfter(g, nid)[o := (g.nodeX[nid], g.nodeY[nid])]
  {
  }

  /** Any other relevant cell adds an in/out pair. */
  lemma CellSplit(g: Layer, nid: nat)
    requires g.WellFormed() && nid < g.Size() && g.relevant[nid] != 0
    requires g.border[nid] != 1 && g.buildingIds[nid] == 0
    ensures var o, p := Offset(g, nid), (g.nodeX[nid], g.nodeY[nid]);
      && Offset(g, nid + 1) == o + 2
      && NodeMapAfter(g, nid + 1) == NodeMapAfter(g, nid)[(nid, In) := o][(nid, Out) := o + 1]
      && CategoriesAfter(g, nid + 1) == CategoriesAfter(g, nid)[o := NormalIn][o + 1 := NormalOut]
      && PositionsAfter(g, nid + 1) == PositionsAfter(g, nid)[o := p][o + 1 := p]
  {
  }

  /** Cell `nid`'s piece of the source pass is the source's arc to its
      single node when it is a river-border cell. */
  lemma SourcePiece(g: Layer, infinity: int, nid: nat)
    requires g.WellFormed() && nid < g.Size()
    ensures SourceArcFn(g, infinity)(nid)
            == if (nid, Single) in NodeMap(g) && g.border[nid] == 1
               then [Arc(SourceId(g), NodeMap(g)[(nid, Single)], infinity)] else []
  {
    NodeMapShape(g, g.Size(), nid, Single);
  }

  /** Cell `nid`'s piece of the building-cell pass is its arc to its
      building's sink node when it is a relevant building cell. */
  lemma BuildingCellPiece(g: Layer, infinity: int, nid: nat)
    requires g.WellFormed() && nid < g.Size() && BuildingIdsResolvable(g)
    ensures g.relevant[nid] != 0 && g.buildingIds[nid] != 0 ==> g.buildingIds[nid] in BuildingNodes(g)
    ensures BuildingCellArcFn(g, infinity)(nid)
            == if g.relevant[nid] != 0 && g.buildingIds[nid] != 0 && (nid, Single) in NodeMap(g)
               then [Arc(NodeMap(g)[(nid, Single)], BuildingNodes(g)[g.buildingIds[nid]], infinity)] else []
  {
    NodeMapShape(g, g.Size(), nid, Single);
    BuildingNodesKeys(g, g.buildingIds[nid]);
  }

  /** The node ids the neighbour pass looks up for an arc from cell `nid`
      to cell `nb`: the out-node (or single node) of `nid` and the in-node
      (or single node) of `nb`, both present in `node_map`. */
  lemma NeighborEnds(g: Layer, nid: int, nb: int)
    requires g.Has(nid) && g.relevant[nid] != 0 && g.Has(nb) && g.relevant[nb] != 0
    ensures (nid, Out) in NodeMap(g) || (nid, Single) in NodeMap(g)
    ensures (nb, In) in NodeMap(g) || (nb, Single) in NodeMap(g)
    ensures (if (nid, Out) in NodeMap(g) then NodeMap(g)[(nid, Out)] else NodeMap(g)[(nid, Single)])
            == OutNode(g, nid)
    ensures (if (nb, In) in NodeMap(g) then NodeMap(g)[(nb, In)] else NodeMap(g)[(nb, Single)])
            == Offset(g, nb)
  {
    NodeMapShape(g, g.Size(), nid, Out);
    NodeMapShape(g, g.Size(), nid, Single);
    NodeMapShape(g, g.Size(), nb, In);
    NodeMapShape(g, g.Size(), nb, Single);
  }

  /** The piece of neighbour `nb` of river-border cell `nid` in the final
      pass: the arc to `nb`'s in-node when `nb` is split and its `relevant`
      flag is 1. */
  lemma RiverPiece(g: Layer, infinity: int, nid: int, nb: int)
    requires g.Has(nid) && g.Has(nb)
    ensures RiverArcFn(g, infinity, nid)(nb)
            == if g.relevant[nb] == 1 && (nb, In) in NodeMap(g)
               then [Arc(Offset(g, nid), NodeMap(g)[(nb, In)], infinity)] else []
  {
    NodeMapShape(g, g.Size(), nb, In);
  }

  // ---------------------------------------------------------------------
  // The instance
  // ---------------------------------------------------------------------

  /**
   * A min-cut instance over `grid`.  `BuildGraph` fills `nodeMap` (cell and
   * role to node id), `categories`, `nodePositions` and the arc list; the
   * constructor leaves them empty.  The building weight defaults to 1 and
   * the scaling factor to 10^6.
   */
  class MinCutInstance {
    const grid: RasterGrid
    var nodePositions: map<int, Position>
    var categories: map<int, Category>
    const buildingWeight: real
    var arcs: seq<Arc>
    var nodeMap: map<(int, Role), int>
    const scalingFactor: real
    const infinity: int

    constructor (grid: RasterGrid, buildingWeight: real := 1.0, scalingFactor: real := 1000000.0)
      ensures this.grid == grid && this.buildingWeight == buildingWeight && this.scalingFactor == scalingFactor
      ensures nodePositions == map[] && categories == map[] && arcs == [] && nodeMap == map[]
      ensures infinity == Infinity(scalingFactor)
    {
      this.grid := grid;
      nodePositions, categories := map[], map[];
      this.buildingWeight := buildingWeight;
      arcs, nodeMap := [], map[];
      this.scalingFactor := scalingFactor;
      infinity := TruncToInt(1000000000.0 * scalingFactor);
    }

    /** What the builder reads from the grid. */
    ghost function Layout(): Layer
      reads grid, grid.borderOfRiver, grid.relevant
    {
      Layer(grid.rows, grid.cols, grid.elevation, grid.borderOfRiver[..], grid.buildingIds,
            grid.relevant[..], grid.nodeX, grid.nodeY)
    }

    /** The node tables are those `BuildGraph` builds from the grid. */
    ghost predicate Built()
      reads this, grid, grid.borderOfRiver, grid.relevant
    {
      && Layout().WellFormed()
      && nodeMap == NodeMap(Layout())
      && categories == Categories(Layout())
      && nodePositions == Positions(Layout())
    }

    /**
     * Builds the flow network for `waterHeight` and returns its source and
     * sink.  Every relevant building cell must carry a positive id:
     * otherwise the lookup of its building's sink node fails.
     */
    method BuildGraph(waterHeight: real) returns (source: int, sink: int)
      requires Layout().WellFormed() && BuildingIdsResolvable(Layout())
      modifies this
      ensures Built()
      ensures arcs == Arcs(Layout(), SplitCapacities(Layout(), waterHeight, scalingFactor), infinity,
                           BuildingCapacity(buildingWeight, scalingFactor))
      ensures source == SourceId(Layout()) && sink == SinkId(Layout())
    {
      var g := Layer(grid.rows, grid.cols, grid.elevation, grid.borderOfRiver[..], grid.buildingIds,
                     grid.relevant[..], grid.nodeX, grid.nodeY);
      nodePositions, categories, arcs, nodeMap := map[], map[], [], map[];
      var counter := AddCellNodes(g, waterHeight);

      source, sink := counter, counter + 1;
      counter := counter + 2;
      categories := categories[source := SourceNode][sink := SinkNode];
      nodePositions := nodePositions[source := (-1.0, -1.0)][sink := (-2.0, -2.0)];

      AddSourceArcs(g, source);
      var buildingNodes := AddBuildingSinks(g, sink, counter);
      AddBuildingCellArcs(g, buildingNodes);
      AddNeighborArcs(g);
      AddRiverArcs(g);
    }

    /** The cell pass: one single node or an in/out pair per relevant cell,
        and each pair's in -> out arc. */
    method AddCellNodes(g: Layer, waterHeight: real) returns (counter: int)
      requires g.WellFormed()
      requires nodePositions == map[] && categories == map[] && arcs == [] && nodeMap == map[]
      modifies this
      ensures nodeMap == NodeMap(g) && categories == CategoriesAfter(g, g.Size())
      ensures nodePositions == PositionsAfter(g, g.Size())
      ensures arcs == Gather(g.Size(), SplitArcFn(g, SplitCapacities(g, waterHeight, scalingFactor)))
      ensures counter == CellNodeCount(g)
    {
      counter := 0;
      for nid := 0 to g.Size()
        invariant counter == Offset(g, nid)
        invariant nodeMap == NodeMapAfter(g, nid) && categories == CategoriesAfter(g, nid)
        invariant nodePositions == PositionsAfter(g, nid)
        invariant arcs == Gather(nid, SplitArcFn(g, SplitCapacities(g, waterHeight, scalingFactor)))
      {
        counter := AddCellNode(g, waterHeight, nid, counter);
      }
    }

    /** One iteration of the cell pass, for cell `nid`. */
    method AddCellNode(g: Layer, waterHeight: real, nid: nat, counter: int) returns (counter': int)
      requires g.WellFormed() && nid < g.Size() && counter == Offset(g, nid)
      requires nodeMap == NodeMapAfter(g, nid) && categories == CategoriesAfter(g, nid)
      requires nodePositions == PositionsAfter(g, nid)
      requires arcs == Gather(nid, SplitArcFn(g, SplitCapacities(g, waterHeight, scalingFactor)))
      modifies this`nodeMap, this`categories, this`nodePositions, this`arcs
      ensures counter' == Offset(g, nid + 1)
      ensures nodeMap == NodeMapAfter(g, nid + 1) && categories == CategoriesAfter(g, nid + 1)
      ensures nodePositions == PositionsAfter(g, nid + 1)
      ensures arcs == Gather(nid + 1, SplitArcFn(g, SplitCapacities(g, waterHeight, scalingFactor)))
    {
      ghost var f := SplitArcFn(g, SplitCapacities(g, waterHeight, scalingFactor));
      SplitPiece(g, waterHeight, scalingFactor, nid);
      assert Gather(nid + 1, f) == Gather(nid, f) + f(nid);
      counter' := counter;
      if g.relevant[nid] == 0 {
        CellSkipped(g, nid);
        return;
      }
      var x, y := g.nodeX[nid], g.nodeY[nid];
      if g.border[nid] == 1 || g.buildingIds[nid] != 0 {
        CellSingle(g, nid);
        nodePositions := nodePositions[counter' := (x, y)];
        var cat := if g.border[nid] == 1 then River else Building;
        categories := categories[counter' := cat];
        nodeMap := nodeMap[(nid, Single) := counter'];
        counter' := counter' + 1;
      } else {
        CellSplit(g, nid);
        var inId, outId := counter', counter' + 1;
        counter' := counter' + 2;
        nodePositions := nodePositions[inId := (x, y)][outId := (x, y)];
        categories := categories[inId := NormalIn][outId := NormalOut];
        nodeMap := nodeMap[(nid, In) := inId][(nid, Out) := outId];
        var cap := SplitCapacity(waterHeight, g.elevation[nid], scalingFactor);
        arcs := arcs + [Arc(inId, outId, cap)];
      }
    }

    /** The source pass: an arc from the source to the single node of every
        river-border cell, visiting `node_map` in insertion (cell) order. */
    method AddSourceArcs(g: Layer, source: int)
      requires g.WellFormed() && nodeMap == NodeMap(g) && source == SourceId(g)
      modifies this`arcs
      ensures arcs == old(arcs) + Gather(g.Size(), SourceArcFn(g, infinity))
    {
      for nid := 0 to g.Size()
        invariant arcs == old(arcs) + Gather(nid, SourceArcFn(g, infinity))
      {
        GatherStep(old(arcs), nid, SourceArcFn(g, infinity));
        SourcePiece(g, infinity, nid);
        if (nid, Single) in nodeMap && g.border[nid] == 1 {
          arcs := arcs + [Arc(source, nodeMap[(nid, Single)], infinity)];
        }
      }
    }

    /** The building-sink pass: one node per distinct positive building id,
        in ascending order, each with an arc to the sink. */
    method AddBuildingSinks(g: Layer, sink: int, first: int) returns (buildingNodes: map<int, int>)
      requires g.WellFormed() && sink == SinkId(g) && first == BuildingBase(g)
      requires categories == TerminalCategories(g) && nodePositions == TerminalPositions(g)
      modifies this`categories, this`nodePositions, this`arcs
      ensures buildingNodes == BuildingNodes(g)
      ensures categories == Categories(g) && nodePositions == Positions(g)
      ensures arcs == old(arcs) + Gather(|BuildingIds(g)|,
                                        SinkArcFn(first, sink, BuildingCapacity(buildingWeight, scalingFactor)))
    {
      ghost var prefix := arcs;
      var ids := UniquePositive(g.buildingIds);
      var counter := first;
      buildingNodes := map[];
      for i := 0 to |ids|
        invariant counter == first + i
        invariant buildingNodes == BuildingNodesAfter(ids, first, i)
        invariant categories == SinkCategoriesAfter(TerminalCategories(g), first, i)
        invariant nodePositions == SinkPositionsAfter(TerminalPositions(g), ids, first, i)
        invariant arcs == prefix + Gather(i, SinkArcFn(first, sink, BuildingCapacity(buildingWeight, scalingFactor)))
      {
        buildingNodes := AddBuildingSink(g, ids, i, counter, sink, buildingNodes, prefix);
        counter := counter + 1;
      }
    }

    /** One iteration of the building-sink pass, for the `i`-th id. */
    method AddBuildingSink(g: Layer, ids: seq<int>, i: nat, counter: int, sink: int,
                           buildingNodes: map<int, int>, ghost prefix: seq<Arc>)
      returns (buildingNodes': map<int, int>)
      requires g.WellFormed() && ids == BuildingIds(g) && i < |ids| && counter == BuildingBase(g) + i
      requires buildingNodes == BuildingNodesAfter(ids, BuildingBase(g), i)
      requires categories == SinkCategoriesAfter(TerminalCategories(g), BuildingBase(g), i)
      requires nodePositions == SinkPositionsAfter(TerminalPositions(g), ids, BuildingBase(g), i)
      requires arcs == prefix + Gather(i, SinkArcFn(BuildingBase(g), sink, BuildingCapacity(buildingWeight, scalingFactor)))
      modifies this`categories, this`nodePositions, this`arcs
      ensures buildingNodes' == BuildingNodesAfter(ids, BuildingBase(g), i + 1)
      ensures categories == SinkCategoriesAfter(TerminalCategories(g), BuildingBase(g), i + 1)
      ensures nodePositions == SinkPositionsAfter(TerminalPositions(g), ids, BuildingBase(g), i + 1)
      ensures arcs == prefix + Gather(i + 1, SinkArcFn(BuildingBase(g), sink, BuildingCapacity(buildingWeight, scalingFactor)))
    {
      GatherStep(prefix, i, SinkArcFn(BuildingBase(g), sink, BuildingCapacity(buildingWeight, scalingFactor)));
      var bId := ids[i];
      var bNode := counter;
      buildingNodes' := buildingNodes[bId := bNode];
      nodePositions := nodePositions[bNode := (0.0, (-bId * 2) as real)];
      categories := categories[bNode := BuildingSink];
      arcs := arcs + [Arc(bNode, sink, TruncToInt(buildingWeight * scalingFactor))];
    }

    /** The building-cell pass: each relevant building cell's single node
        feeds its building's sink node. */
    method AddBuildingCellArcs(g: Layer, buildingNodes: map<int, int>)
      requires g.WellFormed() && BuildingIdsResolvable(g)
      requires nodeMap == NodeMap(g) && buildingNodes == BuildingNodes(g)
      modifies this`arcs
      ensures arcs == old(arcs) + Gather(g.Size(), BuildingCellArcFn(g, infinity))
    {
      for nid := 0 to g.Size()
        invariant arcs == old(arcs) + Gather(nid, BuildingCellArcFn(g, infinity))
      {
        GatherStep(old(arcs), nid, BuildingCellArcFn(g, infinity));
        BuildingCellPiece(g, infinity, nid);
        if g.relevant[nid] == 0 || g.buildingIds[nid] == 0 {
          continue;
        }
        var bid := g.buildingIds[nid];
        if (nid, Single) in nodeMap {
          arcs := arcs + [Arc(nodeMap[(nid, Single)], buildingNodes[bid], infinity)];
        }
      }
    }

    /** The neighbour pass: every relevant cell without a building gets an
        arc to each relevant 8-neighbour, unless both are river-border
        cells. */
    method AddNeighborArcs(g: Layer)
      requires g.WellFormed() && nodeMap == NodeMap(g)
      modifies this`arcs
      ensures arcs == old(arcs) + Gather(g.Size(), NeighborArcsFn(g, infinity))
    {
      for nid := 0 to g.Size()
        invariant arcs == old(arcs) + Gather(nid, NeighborArcsFn(g, infinity))
      {
        GatherStep(old(arcs), nid, NeighborArcsFn(g, infinity));
        if g.relevant[nid] == 0 {
          continue;
        }
        if g.buildingIds[nid] != 0 {
          continue;
        }
        var neighbors := EightNeighbors(g.rows, g.cols, nid);
        forall nb | nb in neighbors
          ensures g.Has(nb)
        {
          EightNeighborhoodShape(g.rows, g.cols, nid, nb);
        }
        AddNeighborArcsOf(g, nid, neighbors);
      }
    }

    /** The arcs of the neighbour pass leaving cell `nid`: from its out-node
        (or single node) to the in-node (or single node) of each neighbour. */
    method AddNeighborArcsOf(g: Layer, nid: int, neighbors: seq<int>)
      requires g.Has(nid) && nodeMap == NodeMap(g) && g.relevant[nid] != 0
      requires forall nb :: nb in neighbors ==> g.Has(nb)
      modifies this`arcs
      ensures arcs == old(arcs) + GatherOver(neighbors, NeighborArcFn(g, infinity, nid))
    {
      ghost var f := NeighborArcFn(g, infinity, nid);
      for j := 0 to |neighbors|
        invariant arcs == old(arcs) + GatherOver(neighbors[..j], f)
      {
        var nb := neighbors[j];
        GatherOverStep(old(arcs), neighbors, j, f);
        assert g.Has(nb);
        if nb < 0 || g.relevant[nb] == 0 {
          assert f(nb) == [];
          continue;
        }
        if g.border[nid] == 1 && g.border[nb] == 1 {
          assert f(nb) == [];
          continue;
        }
        NeighborEnds(g, nid, nb);
        var src := if (nid, Out) in nodeMap then nodeMap[(nid, Out)] else nodeMap[(nid, Single)];
        var dst := if (nb, In) in nodeMap then nodeMap[(nb, In)] else nodeMap[(nb, Single)];
        assert f(nb) == [Arc(src, dst, infinity)];
        arcs := arcs + [Arc(src, dst, infinity)];
      }
      assert neighbors[..|neighbors|] == neighbors;
    }

    /** The final pass: every relevant river-border cell gets an arc to the
        in-node of each 8-neighbour whose `relevant` flag is 1. */
    method AddRiverArcs(g: Layer)
      requires g.WellFormed() && nodeMap == NodeMap(g)
      modifies this`arcs
      ensures arcs == old(arcs) + Gather(g.Size(), RiverArcsFn(g, infinity))
    {
      for nid := 0 to g.Size()
        invariant arcs == old(arcs) + Gather(nid, RiverArcsFn(g, infinity))
      {
        GatherStep(old(arcs), nid, RiverArcsFn(g, infinity));
        if g.border[nid] != 1 || g.relevant[nid] == 0 {
          continue;
        }
        NodeMapShape(g, g.Size(), nid, Single);
        var riverNode := nodeMap[(nid, Single)];
        var neighbors := EightNeighbors(g.rows, g.cols, nid);
        forall nb | nb in neighbors
          ensures g.Has(nb)
        {
          EightNeighborhoodShape(g.rows, g.cols, nid, nb);
        }
        AddRiverArcsOf(g, nid, riverNode, neighbors);
      }
    }

    /** The arcs of the final pass leaving river-border cell `nid`. */
    method AddRiverArcsOf(g: Layer, nid: int, riverNode: int, neighbors: seq<int>)
      requires g.Has(nid) && nodeMap == NodeMap(g) && riverNode == Offset(g, nid)
      requires forall nb :: nb in neighbors ==> g.Has(nb)
      modifies this`arcs
      ensures arcs == old(arcs) + GatherOver(neighbors, RiverArcFn(g, infinity, nid))
    {
      ghost var f := RiverArcFn(g, infinity, nid);
      for j := 0 to |neighbors|
        invariant arcs == old(arcs) + GatherOver(neighbors[..j], f)
      {
        var nb := neighbors[j];
        GatherOverStep(old(arcs), neighbors, j, f);
        assert g.Has(nb);
        RiverPiece(g, infinity, nid, nb);
        if g.relevant[nb] == 1 && (nb, In) in nodeMap {
          arcs := arcs + [Arc(riverNode, nodeMap[(nb, In)], infinity)];
        }
      }
      assert neighbors[..|neighbors|] == neighbors;
    }

    /**
     * The cut cells for a cut given by its source side and sink side, in
     * `node_map` order (ascending cell index): the split cells whose
     * in -> out arc crosses from the source side to the sink side.
     */
    method GetCutCells(sourceSide: set<int>, sinkSide: set<int>) returns (cutCells: seq<int>)
      requires Built()
      ensures StrictlyIncreasing(cutCells)
      ensures forall c :: c in cutCells <==> c in CutCellSet(nodeMap, sourceSide, sinkSide)
    {
      ghost var g := Layout();
      forall c | c in CutCellSet(nodeMap, sourceSide, sinkSide)
        ensures 0 <= c < grid.NumberOfNodes()
      {
        CutCellsMeaning(g, sourceSide, sinkSide, c);
      }
      cutCells := [];
      for nid := 0 to grid.NumberOfNodes()
        invariant StrictlyIncreasing(cutCells)
        invariant forall c :: c in cutCells ==> c < nid
        invariant forall c :: c in cutCells <==> c < nid && c in CutCellSet(nodeMap, sourceSide, sinkSide)
      {
        CutCellAt(nodeMap, sourceSide, sinkSide, nid);
        if (nid, In) !in nodeMap {
          continue;
        }
        if (nid, Out) !in nodeMap {
          continue;
        }
        var inId, outId := nodeMap[(nid, In)], nodeMap[(nid, Out)];
        if inId in sourceSide && outId in sinkSide {
          IncreasingAppend(cutCells, nid);
          cutCells := cutCells + [nid];
        }
      }
    }

    /**
     * The buildings whose sink node lies on the source side, in
     * `categories` order (ascending node id), each decoded from its sink
     * node's position.
     */
    method GetBuildingsInCut(sourceSide: set<int>) returns (flooded: seq<int>)
      requires Built()
      ensures flooded == Flooded(Layout(), sourceSide)
    {
      ghost var g := Layout();
      ghost var ids, base := BuildingIds(g), BuildingBase(g);
      flooded := [];
      for id := 0 to NodeCountOf()
        invariant flooded == FloodedAfter(ids, base, sourceSide, if id <= base then 0 else id - base)
      {
        CategoriesShape(g, id);
        if id in categories && categories[id] == BuildingSink && id in sourceSide {
          var (x, y) := nodePositions[id];
          assert ids[id - base] in ids;
          DecodeSinkPosition(ids[id - base]);
          flooded := flooded + [DecodeBuildingId(y)];
        }
      }
    }

    /** The number of network nodes once the graph is built. */
    function NodeCountOf(): (n: nat)
      reads this, grid, grid.borderOfRiver, grid.relevant
      requires Built()
      ensures n == NodeCount(Layout())
    {
      CategoryCount(Layout());
      |categories|
    }
  }
}
