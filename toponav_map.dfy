/**
 * The map engine: the id-keyed node and edge maps, the rules that grow
 * them as the robot moves, and the snapshot of the local costmap that
 * directNavigable keeps.
 */
module TopoNavEngine {
  import opened TopoNavTypes
  import opened OrderedIds
  import opened CostmapCells
  import opened TopoNavGraph
  import opened TopoNavMsgs

  /** The latest costmap message carries a cost for every cell whenever it is newer than the snapshot. */
  predicate CompleteGrid(grid: OccupancyGrid)
  {
    grid.width * grid.height <= |grid.data|
  }

  /** Every node of the map lies farther than MinNodeSpacing from the robot (vacuously so on an empty map). */
  ghost predicate FarFromAll(nodes: map<NodeId, Node>, robot: Pose, env: Collaborators)
  {
    forall k :: k in nodes ==> env.dist(nodes[k].pose, robot) > MinNodeSpacing
  }

  /**
   * The spacing test of checkCreateNode: the distance to the closest node
   * exceeds MinNodeSpacing exactly when every node lies farther than that.
   */
  lemma ClosestExceedsIffFarFromAll(nodes: map<NodeId, Node>, robot: Pose, env: Collaborators, d: Distance, closest: Option<NodeId>)
    requires d.Infinite? <==> nodes == map[]
    requires d.Finite? ==> forall k :: k in nodes ==> d.value <= env.dist(nodes[k].pose, robot)
    requires d.Finite? ==> closest.Some? && closest.value in nodes && env.dist(nodes[closest.value].pose, robot) == d.value
    ensures d.Exceeds(MinNodeSpacing) <==> FarFromAll(nodes, robot, env)
  {
    if d.Finite? && FarFromAll(nodes, robot, env) {
      assert env.dist(nodes[closest.value].pose, robot) > MinNodeSpacing;
    }
  }

  /**
   * The read at line 277 of directNavigable on a map just built: while the
   * costmap message in hand is numbered 0 it is never copied, so the matrix
   * stays 0 x 0 and the cell of the first point, which the source reads
   * without a bounds test, lies outside it; the model reads nothing there.
   */
  method ZeroNumberedCostmapLeavesNothingToRead(robot: Pose, now: Time, env: Collaborators, grid: OccupancyGrid, p1: Pose, p2: Pose)
    returns (cell: Cell, rows: nat, cols: nat, sample: Option<int>)
    requires grid.headerSeq == 0 && grid.resolution > 0.0
    ensures cell == MapPoint2CostmapCell(env.toCostmapLocal(p1), grid.resolution)
    ensures rows == 0 && cols == 0
    ensures OutOfBounds(cell, cols, rows)
    ensures sample == None
  {
    var m := new TopoNavMap(robot, now, env);
    var navigable;
    navigable, sample := m.DirectNavigable(p1, p2, env, grid);
    cell := MapPoint2CostmapCell(env.toCostmapLocal(p1), grid.resolution);
    rows, cols := m.costmapMatrix.Length0, m.costmapMatrix.Length1;
    UncheckedReadOutsideEmptyMatrix(env.toCostmapLocal(p1), grid.resolution);
  }

  /**
   * What the first updateMap leaves behind, stated on the values its
   * contract gives for an empty map with both counters at 0.
   */
  lemma FirstUpdate(robot: Pose, now: Time, env: Collaborators, created: bool,
                    nodes: map<NodeId, Node>, edges: map<EdgeId, Edge>, nextNodeId: NodeId, nextEdgeId: EdgeId)
    requires created <==> env.isNewDoor || FarFromAll(map[], robot, env)
    requires created ==>
      var n := Node(0, now, robot, env.isNewDoor, DefaultAreaId);
      var targets := EdgeTargets(nodes, n, env);
      && nodes == map[][0 := n]
      && nextNodeId == 0 + 1
      && edges == map[] + NewEdges(nodes, n, env, targets, 0, now)
      && nextEdgeId == 0 + |targets|
    ensures created
    ensures nodes == map[0 := Node(0, now, robot, env.isNewDoor, DefaultAreaId)]
    ensures edges == map[] && nextNodeId == 1 && nextEdgeId == 0
    ensures !NavigabilityAsked(nodes, Node(0, now, robot, env.isNewDoor, DefaultAreaId), env)
  {
    var n := Node(0, now, robot, env.isNewDoor, DefaultAreaId);
    assert FarFromAll(map[], robot, env);
    FirstNodeLinksNothing(nodes, n, env, now, edges, nextEdgeId);
  }

  class TopoNavMap {
    var nodes: map<NodeId, Node>
    var edges: map<EdgeId, Edge>
    /** The id the next created node receives; the node constructor assigns it in the source. */
    var nextNodeId: NodeId
    /** The id the next created edge receives; the edge constructor assigns it in the source. */
    var nextEdgeId: EdgeId
    /** The header sequence number of the costmap message the matrix was last built from. */
    var costmapLastUpdateSeq: nat
    /** The costmap as a matrix: row i from y, column j from x. */
    var costmapMatrix: array2<int>

    /**
     * Every entry is stored under its own id, no edge refers to a missing
     * node, and the counters lie above every id in use.
     */
    ghost predicate Valid()
      reads this`nodes, this`edges, this`nextNodeId, this`nextEdgeId
    {
      && KeyedById(nodes, edges)
      && EdgesClosed(nodes, edges)
      && (forall k :: k in nodes ==> k < nextNodeId)
      && (forall k :: k in edges ==> k < nextEdgeId)
    }

    /** The matrix is the row-major reading of the costmap message: height x width, entry (i, j) from data[i*width + j]. */
    ghost predicate Mirrors(grid: OccupancyGrid)
      reads this`costmapMatrix, costmapMatrix
    {
      && costmapMatrix.Length0 == grid.height
      && costmapMatrix.Length1 == grid.width
      && CompleteGrid(grid)
      && forall i, j :: 0 <= i < grid.height && 0 <= j < grid.width ==>
           costmapMatrix[i, j] == grid.data[RowMajorIndex(i, j, grid.width, grid.height)]
    }

    /**
     * The snapshot after directNavigable was (asked) or was not consulted:
     * rebuilt from `grid` exactly when it was consulted and the message is
     * newer than the one the snapshot had, untouched otherwise.
     */
    ghost predicate SnapshotAfter(asked: bool, grid: OccupancyGrid, oldSeq: nat, oldMatrix: array2<int>)
      reads this`costmapLastUpdateSeq, this`costmapMatrix, costmapMatrix
    {
      if asked && grid.headerSeq > oldSeq then
        costmapLastUpdateSeq == grid.headerSeq && Mirrors(grid)
      else
        costmapLastUpdateSeq == oldSeq && costmapMatrix == oldMatrix
    }

    /**
     * The constructor runs updateMap once, before any costmap message has
     * arrived: the map starts with a single node at the robot's pose.
     */
    constructor (robot: Pose, now: Time, env: Collaborators)
      ensures Valid()
      ensures nodes == map[0 := Node(0, now, robot, env.isNewDoor, DefaultAreaId)]
      ensures edges == map[]
      ensures nextNodeId == 1 && nextEdgeId == 0
      ensures costmapLastUpdateSeq == 0
      ensures costmapMatrix.Length0 == 0 && costmapMatrix.Length1 == 0
    {
      nodes := map[];
      edges := map[];
      nextNodeId := 0;
      nextEdgeId := 0;
      costmapLastUpdateSeq := 0;
      costmapMatrix := new int[0, 0];
      new;
      ghost var empty := costmapMatrix;
      var created, msg := UpdateMap(robot, now, env, EmptyGrid);
      FirstUpdate(robot, now, env, created, nodes, edges, nextNodeId, nextEdgeId);
    }

    /** addNode: the new node takes the next id, larger than every id in the map (so it is the map's last entry). */
    method AddNode(pose: Pose, isDoor: bool, areaId: int, now: Time) returns (id: NodeId)
      requires Valid()
      modifies this`nodes, this`nextNodeId
      ensures Valid()
      ensures id == old(nextNodeId) && nextNodeId == id + 1
      ensures forall k :: k in old(nodes) ==> k < id
      ensures nodes == old(nodes)[id := Node(id, now, pose, isDoor, areaId)]
    {
      id := nextNodeId;
      nodes := nodes[id := Node(id, now, pose, isDoor, areaId)];
      nextNodeId := nextNodeId + 1;
    }

    /** addEdge: a new edge from one node of the map to another, under the next edge id. */
    method AddEdge(startId: NodeId, endId: NodeId, now: Time, env: Collaborators) returns (id: EdgeId)
      requires Valid() && startId in nodes && endId in nodes
      modifies this`edges, this`nextEdgeId
      ensures Valid()
      ensures id == old(nextEdgeId) && nextEdgeId == id + 1 && id !in old(edges)
      ensures edges == old(edges)[id := Edge(id, now, env.edgeCost(nodes[startId], nodes[endId]), startId, endId)]
    {
      id := nextEdgeId;
      edges := edges[id := Edge(id, now, env.edgeCost(nodes[startId], nodes[endId]), startId, endId)];
      nextEdgeId := nextEdgeId + 1;
    }

    /** deleteEdge: removes that one edge; the nodes stay. */
    method DeleteEdge(id: EdgeId)
      requires Valid() && id in edges
      modifies this`edges
      ensures Valid()
      ensures edges == old(edges) - {id}
    {
      edges := edges - {id};
    }

    /** connectedEdges: exactly the edges that start or end at node n, as stored; nothing changes. */
    method ConnectedEdges(n: NodeId) returns (connected: map<EdgeId, Edge>)
      ensures forall e :: e in connected <==> e in edges && edges[e].Touches(n)
      ensures forall e :: e in connected ==> connected[e] == edges[e]
    {
      connected := map[];
      var remaining := edges.Keys;
      while remaining != {}
        invariant remaining <= edges.Keys
        invariant forall e :: e in connected <==> e in edges && e !in remaining && edges[e].Touches(n)
        invariant forall e :: e in connected ==> connected[e] == edges[e]
        decreases remaining
      {
        var e := PickSmallest(remaining);
        if edges[e].startId == n || edges[e].endId == n {
          connected := connected[e := edges[e]];
        }
        remaining := remaining - {e};
      }
    }

    /**
     * deleteNode: deletes every edge connected to the node, then the node;
     * every other node and edge is kept as it was.
     */
    method DeleteNode(id: NodeId)
      requires Valid() && id in nodes
      modifies this`nodes, this`edges
      ensures Valid()
      ensures nodes == old(nodes) - {id}
      ensures edges == EdgesAvoiding(old(edges), id)
    {
      var connected := ConnectedEdges(id);
      var remaining := connected.Keys;
      while remaining != {}
        invariant remaining <= connected.Keys
        invariant Valid() && nodes == old(nodes)
        invariant edges == old(edges) - (connected.Keys - remaining)
        decreases remaining
      {
        var e := PickSmallest(remaining);
        DeleteEdge(e);
        remaining := remaining - {e};
      }
      assert edges == EdgesAvoiding(old(edges), id);
      CascadeDeleteKeepsClosed(nodes, old(edges), id);
      nodes := nodes - {id};
    }

    /**
     * distanceToClosestNode: infinite on an empty map; otherwise the
     * smallest distance from a node to the robot, attained by the node
     * reported as closest, which is the lowest id among the nearest nodes.
     */
    method DistanceToClosestNode(robot: Pose, env: Collaborators) returns (d: Distance, closest: Option<NodeId>)
      ensures d.Infinite? <==> nodes == map[]
      ensures d.Finite? ==> forall k :: k in nodes ==> d.value <= env.dist(nodes[k].pose, robot)
      ensures d.Finite? ==> closest.Some? && closest.value in nodes && env.dist(nodes[closest.value].pose, robot) == d.value
      ensures d.Finite? ==> forall k :: k in nodes && k < closest.value ==> env.dist(nodes[k].pose, robot) > d.value
    {
      if |nodes| == 0 {
        return Infinite, None;
      }
      var minimum: real := 0.0;
      closest := None;
      var remaining := nodes.Keys;
      var first := true;
      while remaining != {}
        invariant remaining <= nodes.Keys
        invariant first <==> remaining == nodes.Keys
        invariant forall a, b :: a in nodes && a !in remaining && b in remaining ==> a < b
        invariant !first ==> closest.Some? && closest.value in nodes && closest.value !in remaining
        invariant !first ==> env.dist(nodes[closest.value].pose, robot) == minimum
        invariant forall k :: k in nodes && k !in remaining ==> minimum <= env.dist(nodes[k].pose, robot)
        invariant !first ==> forall k :: k in nodes && k !in remaining && k < closest.value ==> env.dist(nodes[k].pose, robot) > minimum
        decreases remaining
      {
        var k := PickSmallest(remaining);
        var dist := env.dist(nodes[k].pose, robot);
        if first || dist < minimum {
          minimum := dist;
          closest := Some(k);
        }
        first := false;
        remaining := remaining - {k};
      }
      d := Finite(minimum);
    }

    /** The refresh inside directNavigable: rebuilds the matrix from the message and records its sequence number. */
    method RefreshCostmap(grid: OccupancyGrid)
      requires CompleteGrid(grid)
      modifies this`costmapLastUpdateSeq, this`costmapMatrix
      ensures costmapLastUpdateSeq == grid.headerSeq
      ensures fresh(costmapMatrix) && Mirrors(grid)
    {
      costmapLastUpdateSeq := grid.headerSeq;
      var m := new int[grid.height, grid.width];
      var i := 0;
      while i < grid.height
        modifies m
        invariant 0 <= i <= grid.height
        invariant forall i', j' :: 0 <= i' < i && 0 <= j' < grid.width ==>
          m[i', j'] == grid.data[RowMajorIndex(i', j', grid.width, grid.height)]
      {
        var j := 0;
        while j < grid.width
          modifies m
          invariant 0 <= j <= grid.width
          invariant forall i', j' :: 0 <= i' < i && 0 <= j' < grid.width ==>
            m[i', j'] == grid.data[RowMajorIndex(i', j', grid.width, grid.height)]
          invariant forall j' :: 0 <= j' < j ==> m[i, j'] == grid.data[RowMajorIndex(i, j', grid.width, grid.height)]
        {
          var k := RowMajorIndex(i, j, grid.width, grid.height);
          m[i, j] := grid.data[k];
          j := j + 1;
        }
        i := i + 1;
      }
      costmapMatrix := m;
    }

    /**
     * directNavigable: refreshes the snapshot when the costmap message is
     * newer, reads the cost of the cell under p1 (only logged by the
     * source), and returns the navigability verdict.
     */
    method DirectNavigable(p1: Pose, p2: Pose, env: Collaborators, grid: OccupancyGrid)
      returns (navigable: bool, sample: Option<int>)
      requires grid.headerSeq > costmapLastUpdateSeq ==> CompleteGrid(grid)
      modifies this`costmapLastUpdateSeq, this`costmapMatrix
      ensures SnapshotAfter(true, grid, old(costmapLastUpdateSeq), old(costmapMatrix))
      ensures old(Mirrors(grid)) ==> Mirrors(grid)
      ensures costmapMatrix != old(costmapMatrix) ==> fresh(costmapMatrix)
      ensures navigable == env.navigable(p1, p2)
      ensures sample.Some? <==> (grid.resolution > 0.0 &&
        !OutOfBounds(MapPoint2CostmapCell(env.toCostmapLocal(p1), grid.resolution), costmapMatrix.Length1, costmapMatrix.Length0))
      ensures sample.Some? ==> (grid.resolution > 0.0 &&
        var c := MapPoint2CostmapCell(env.toCostmapLocal(p1), grid.resolution);
        0 <= c.i < costmapMatrix.Length0 && 0 <= c.j < costmapMatrix.Length1 && sample.value == costmapMatrix[c.i, c.j])
    {
      if grid.headerSeq > costmapLastUpdateSeq {
        RefreshCostmap(grid);
      }
      sample := None;
      if grid.resolution > 0.0 {
        var c := MapPoint2CostmapCell(env.toCostmapLocal(p1), grid.resolution);
        if !OutOfBounds(c, costmapMatrix.Length1, costmapMatrix.Length0) {
          sample := Some(costmapMatrix[c.i, c.j]);
        }
      }
      navigable := env.navigable(p1, p2);
    }

    /**
     * One turn of checkCreateEdges's loop, for node k against node n: the
     * id and distance tests, then edgeExists and directNavigable, and the
     * new edge when both allow it.
     */
    method VisitCandidate(n: Node, k: NodeId, now: Time, env: Collaborators, grid: OccupancyGrid)
      returns (linked: bool, asked: bool)
      requires Valid() && n.id in nodes && nodes[n.id] == n && k in nodes
      requires grid.headerSeq > costmapLastUpdateSeq ==> CompleteGrid(grid)
      modifies this`edges, this`nextEdgeId, this`costmapLastUpdateSeq, this`costmapMatrix
      ensures Valid()
      ensures asked == AsksNavigability(nodes, n, env, k)
      ensures linked == Qualifies(nodes, n, env, k)
      ensures linked ==> (nextEdgeId == old(nextEdgeId) + 1 &&
        edges == old(edges)[old(nextEdgeId) := Edge(old(nextEdgeId), now, env.edgeCost(n, nodes[k]), n.id, k)])
      ensures !linked ==> nextEdgeId == old(nextEdgeId) && edges == old(edges)
      ensures SnapshotAfter(asked, grid, old(costmapLastUpdateSeq), old(costmapMatrix))
      ensures old(Mirrors(grid)) ==> Mirrors(grid)
      ensures costmapMatrix != old(costmapMatrix) ==> fresh(costmapMatrix)
    {
      linked, asked := false, false;
      if nodes[k].id == n.id {
        return;
      }
      if env.dist(n.pose, nodes[k].pose) > MaxDistBetweenNodes {
        return;
      }
      if !env.edgeExists(n, nodes[k]) {
        asked := true;
        var navigable, sample := DirectNavigable(n.pose, nodes[k].pose, env, grid);
        if navigable {
          var id := AddEdge(n.id, k, now, env);
          linked := true;
        }
      }
    }

    /**
     * checkCreateEdges: visits the other nodes in ascending id order and
     * links the given node to each one within MaxDistBetweenNodes for which
     * edgeExists says no and directNavigable says yes; reports whether any
     * edge was made. With fewer than two nodes it returns at once.
     */
    method CheckCreateEdges(nodeId: NodeId, now: Time, env: Collaborators, grid: OccupancyGrid) returns (created: bool)
      requires Valid() && nodeId in nodes
      requires grid.headerSeq > costmapLastUpdateSeq ==> CompleteGrid(grid)
      modifies this`edges, this`nextEdgeId, this`costmapLastUpdateSeq, this`costmapMatrix
      ensures Valid()
      ensures var n := nodes[nodeId]; var targets := EdgeTargets(nodes, n, env);
        && edges == old(edges) + NewEdges(nodes, n, env, targets, old(nextEdgeId), now)
        && nextEdgeId == old(nextEdgeId) + |targets|
        && (created <==> targets != [])
      ensures SnapshotAfter(NavigabilityAsked(nodes, nodes[nodeId], env), grid, old(costmapLastUpdateSeq), old(costmapMatrix))
      ensures costmapMatrix != old(costmapMatrix) ==> fresh(costmapMatrix)
    {
      var n := nodes[nodeId];
      created := false;
      ghost var ids := SortedIds(nodes.Keys);
      ghost var targets: seq<NodeId>, asked := [], false;
      if |nodes| < 2 {
        FewerThanTwoNodesLinked(nodes, n, env, now, edges, nextEdgeId);
      } else {
        var sorted := SortedKeys(nodes.Keys);
        created, targets, asked := LinkCandidates(n, sorted, now, env, grid);
      }
      LinkedAll(nodes, n, env, now, ids, targets, asked, old(edges), old(nextEdgeId), edges, nextEdgeId);
    }

    /**
     * The loop of checkCreateEdges over the node ids `ids`: each candidate in
     * turn goes through VisitCandidate; reports whether any edge was made.
     */
    method LinkCandidates(n: Node, ids: seq<NodeId>, now: Time, env: Collaborators, grid: OccupancyGrid)
      returns (created: bool, ghost targets: seq<NodeId>, ghost asked: bool)
      requires Valid() && n.id in nodes && nodes[n.id] == n
      requires forall k :: k in ids ==> k in nodes
      requires grid.headerSeq > costmapLastUpdateSeq ==> CompleteGrid(grid)
      modifies this`edges, this`nextEdgeId, this`costmapLastUpdateSeq, this`costmapMatrix
      ensures Valid()
      ensures Linked(nodes, n, env, now, ids[..|ids|], targets, asked, old(edges), old(nextEdgeId), edges, nextEdgeId)
      ensures SnapshotAfter(asked, grid, old(costmapLastUpdateSeq), old(costmapMatrix))
      ensures created <==> targets != []
      ensures costmapMatrix != old(costmapMatrix) ==> fresh(costmapMatrix)
    {
      created := false;
      targets, asked := [], false;
      LinkedStart(nodes, n, env, now, edges, nextEdgeId);
      for i := 0 to |ids|
        invariant Valid()
        invariant Linked(nodes, n, env, now, ids[..i], targets, asked, old(edges), old(nextEdgeId), edges, nextEdgeId)
        invariant SnapshotAfter(asked, grid, old(costmapLastUpdateSeq), old(costmapMatrix))
        invariant created <==> targets != []
        invariant costmapMatrix != old(costmapMatrix) ==> fresh(costmapMatrix)
      {
        ghost var edgesBefore, nextBefore := edges, nextEdgeId;
        var linked, askedHere := VisitCandidate(n, ids[i], now, env, grid);
        LinkedStep(nodes, n, env, now, ids, i, targets, asked, old(edges), old(nextEdgeId), linked, askedHere,
                   edgesBefore, nextBefore, edges, nextEdgeId);
        if linked {
          created := true;
          targets := targets + [ids[i]];
        }
        asked := asked || askedHere;
      }
    }

    /**
     * checkCreateNode: a node is made at the robot's pose when the door test
     * fires or every node lies farther than MinNodeSpacing from the robot
     * (always so on an empty map); the new node, the last in id order, then
     * goes through checkCreateEdges. Otherwise nothing changes.
     */
    method CheckCreateNode(robot: Pose, now: Time, env: Collaborators, grid: OccupancyGrid) returns (created: bool)
      requires Valid()
      requires grid.headerSeq > costmapLastUpdateSeq ==> CompleteGrid(grid)
      modifies this`nodes, this`edges, this`nextNodeId, this`nextEdgeId, this`costmapLastUpdateSeq, this`costmapMatrix
      ensures Valid()
      ensures created <==> env.isNewDoor || FarFromAll(old(nodes), robot, env)
      ensures created ==>
        var id := old(nextNodeId);
        var n := Node(id, now, robot, env.isNewDoor, DefaultAreaId);
        var targets := EdgeTargets(nodes, n, env);
        && nodes == old(nodes)[id := n]
        && nextNodeId == id + 1
        && edges == old(edges) + NewEdges(nodes, n, env, targets, old(nextEdgeId), now)
        && nextEdgeId == old(nextEdgeId) + |targets|
        && SnapshotAfter(NavigabilityAsked(nodes, n, env), grid, old(costmapLastUpdateSeq), old(costmapMatrix))
      ensures !created ==>
        && nodes == old(nodes) && edges == old(edges)
        && nextNodeId == old(nextNodeId) && nextEdgeId == old(nextEdgeId)
        && costmapLastUpdateSeq == old(costmapLastUpdateSeq) && costmapMatrix == old(costmapMatrix)
      ensures costmapMatrix != old(costmapMatrix) ==> fresh(costmapMatrix)
    {
      var areaId := DefaultAreaId;
      var create := false;
      var isDoor := false;
      if env.isNewDoor {
        create := true;
        isDoor := true;
      } else {
        var d, closest := DistanceToClosestNode(robot, env);
        ClosestExceedsIffFarFromAll(nodes, robot, env, d, closest);
        if d.Exceeds(MinNodeSpacing) {
          create := true;
        }
      }
      if create {
        var id := AddNode(robot, isDoor, areaId, now);
        assert forall k :: k in nodes ==> k <= id;
        ghost var n := Node(id, now, robot, env.isNewDoor, DefaultAreaId);
        assert nodes[id] == n;
        var linked := CheckCreateEdges(id, now, env, grid);
        assert nextNodeId == id + 1 && nodes == old(nodes)[id := n];
        return true;
      } else {
        return false;
      }
    }

    /** publishTopoNavMap: the node records, then the edge records, each in ascending id order; nothing changes. */
    method PublishTopoNavMap() returns (msg: MapMsg)
      ensures msg == EncodeMap(nodes, edges)
    {
      var nodeRecs := ListNodes(nodes);
      var edgeRecs := ListEdges(edges);
      msg := MapMsg(nodeRecs, edgeRecs);
    }

    /** The node loop of publishTopoNavMap. */
    static method ListNodes(ns: map<NodeId, Node>) returns (recs: seq<NodeMsg>)
      ensures recs == Listing(ns, SortedIds(ns.Keys), NodeToMsg)
    {
      recs := [];
      var remaining := ns.Keys;
      ghost var visited: set<NodeId> := {};
      while remaining != {}
        invariant remaining <= ns.Keys && visited == ns.Keys - remaining
        invariant forall a, b :: a in visited && b in remaining ==> a < b
        invariant recs == Listing(ns, SortedIds(visited), NodeToMsg)
        decreases remaining
      {
        var k := PickSmallest(remaining);
        ListingStep(ns, visited, remaining, k, NodeToMsg);
        recs := recs + [NodeToMsg(ns[k])];
        visited := visited + {k};
        remaining := remaining - {k};
      }
      assert visited == ns.Keys;
    }

    /** The edge loop of publishTopoNavMap. */
    static method ListEdges(es: map<EdgeId, Edge>) returns (recs: seq<EdgeMsg>)
      ensures recs == Listing(es, SortedIds(es.Keys), EdgeToMsg)
    {
      recs := [];
      var remaining := es.Keys;
      ghost var visited: set<EdgeId> := {};
      while remaining != {}
        invariant remaining <= es.Keys && visited == es.Keys - remaining
        invariant forall a, b :: a in visited && b in remaining ==> a < b
        invariant recs == Listing(es, SortedIds(visited), EdgeToMsg)
        decreases remaining
      {
        var k := PickSmallest(remaining);
        ListingStep(es, visited, remaining, k, EdgeToMsg);
        recs := recs + [EdgeToMsg(es[k])];
        visited := visited + {k};
        remaining := remaining - {k};
      }
      assert visited == es.Keys;
    }

    /**
     * loadMapFromMsg: clears both maps, inserts every node record and then
     * every edge record, in message order. The id counters move above every
     * loaded id and never go back.
     */
    method LoadMapFromMsg(msg: MapMsg)
      requires WellFormedMsg(msg)
      modifies this`nodes, this`edges, this`nextNodeId, this`nextEdgeId
      ensures nodes == DecodeNodes(msg.nodes) && edges == DecodeEdges(msg.edges)
      ensures Valid()
      ensures nextNodeId >= old(nextNodeId) && nextEdgeId >= old(nextEdgeId)
    {
      nodes := map[];
      edges := map[];
      LoadNodes(msg.nodes);
      LoadEdges(msg.edges);
      LoadedMapValid(msg);
    }

    /** The node loop of loadMapFromMsg: each record in turn is inserted under its id, a later one replacing an earlier. */
    method LoadNodes(recs: seq<NodeMsg>)
      requires nodes == map[]
      modifies this`nodes, this`nextNodeId
      ensures nodes == DecodeNodes(recs)
      ensures nextNodeId >= old(nextNodeId) && forall k :: k in nodes ==> k < nextNodeId
    {
      var i := 0;
      while i < |recs|
        invariant 0 <= i <= |recs|
        invariant nodes == DecodeNodes(recs[..i])
        invariant nextNodeId >= old(nextNodeId) && forall k :: k in nodes ==> k < nextNodeId
      {
        var r := recs[i];
        CollectNext(recs, i, NodeMsgId, NodeFromMsg);
        nodes := nodes[r.nodeId := NodeFromMsg(r)];
        if r.nodeId >= nextNodeId {
          nextNodeId := r.nodeId + 1;
        }
        i := i + 1;
      }
      assert recs[..i] == recs;
    }

    /** The edge loop of loadMapFromMsg: each record in turn is inserted under its id, a later one replacing an earlier. */
    method LoadEdges(recs: seq<EdgeMsg>)
      requires edges == map[]
      modifies this`edges, this`nextEdgeId
      ensures edges == DecodeEdges(recs)
      ensures nextEdgeId >= old(nextEdgeId) && forall k :: k in edges ==> k < nextEdgeId
    {
      var j := 0;
      while j < |recs|
        invariant 0 <= j <= |recs|
        invariant edges == DecodeEdges(recs[..j])
        invariant nextEdgeId >= old(nextEdgeId) && forall k :: k in edges ==> k < nextEdgeId
      {
        var r := recs[j];
        CollectNext(recs, j, EdgeMsgId, EdgeFromMsg);
        edges := edges[r.edgeId := EdgeFromMsg(r)];
        if r.edgeId >= nextEdgeId {
          nextEdgeId := r.edgeId + 1;
        }
        j := j + 1;
      }
      assert recs[..j] == recs;
    }

    /**
     * updateMap: applies the node-creation rule at the robot's current pose,
     * then publishes the map as it now stands.
     */
    method UpdateMap(robot: Pose, now: Time, env: Collaborators, grid: OccupancyGrid) returns (created: bool, msg: MapMsg)
      requires Valid()
      requires grid.headerSeq > costmapLastUpdateSeq ==> CompleteGrid(grid)
      modifies this`nodes, this`edges, this`nextNodeId, this`nextEdgeId, this`costmapLastUpdateSeq, this`costmapMatrix
      ensures Valid()
      ensures created <==> env.isNewDoor || FarFromAll(old(nodes), robot, env)
      ensures created ==>
        var id := old(nextNodeId);
        var n := Node(id, now, robot, env.isNewDoor, DefaultAreaId);
        var targets := EdgeTargets(nodes, n, env);
        && nodes == old(nodes)[id := n]
        && nextNodeId == id + 1
        && edges == old(edges) + NewEdges(nodes, n, env, targets, old(nextEdgeId), now)
        && nextEdgeId == old(nextEdgeId) + |targets|
        && SnapshotAfter(NavigabilityAsked(nodes, n, env), grid, old(costmapLastUpdateSeq), old(costmapMatrix))
      ensures !created ==>
        && nodes == old(nodes) && edges == old(edges)
        && nextNodeId == old(nextNodeId) && nextEdgeId == old(nextEdgeId)
        && costmapLastUpdateSeq == old(costmapLastUpdateSeq) && costmapMatrix == old(costmapMatrix)
      ensures msg == EncodeMap(nodes, edges)
    {
      created := CheckCreateNode(robot, now, env, grid);
      msg := PublishTopoNavMap();
    }
  }
}
