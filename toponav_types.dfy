/**
 * Value types of the topological navigation map: nodes, edges, their wire
 * records, the local occupancy grid, and the collaborators the map engine
 * consults but does not own (distance, door detection, edge lookup,
 * navigability verdict, the transform into costmap coordinates, and the
 * cost a new edge receives).
 */
module TopoNavTypes {

  datatype Option<T> = None | Some(value: T)

  type NodeId = nat
  type EdgeId = nat

  /** A ROS time stamp, abstracted to a count of clock ticks. */
  type Time = nat

  /** A pose in the /map frame: planar position and heading. */
  datatype Pose = Pose(x: real, y: real, yaw: real)

  /** A point expressed in the frame of the local costmap origin, i.e. of cell (0,0). */
  datatype Point = Point(x: real, y: real)

  datatype Node = Node(id: NodeId, lastUpdated: Time, pose: Pose, isDoor: bool, areaId: int)

  /** An edge refers to its two end nodes by id only. */
  datatype Edge = Edge(id: EdgeId, lastUpdated: Time, cost: real, startId: NodeId, endId: NodeId)
  {
    /** The test connectedEdges applies: the edge starts or ends at node `n`. */
    predicate Touches(n: NodeId)
    {
      startId == n || endId == n
    }
  }

  /** Wire records of the published map (TopoNavNodeMsg, TopoNavEdgeMsg, TopologicalNavigationMap). */
  datatype NodeMsg = NodeMsg(nodeId: NodeId, lastUpdated: Time, pose: Pose, isDoor: bool, areaId: int)
  datatype EdgeMsg = EdgeMsg(edgeId: EdgeId, lastUpdated: Time, startNodeId: NodeId, endNodeId: NodeId, cost: real)
  datatype MapMsg = MapMsg(nodes: seq<NodeMsg>, edges: seq<EdgeMsg>)

  /** A distance that may be +infinity, as distanceToClosestNode returns on an empty map. */
  datatype Distance = Finite(value: real) | Infinite
  {
    predicate Exceeds(bound: real)
    {
      Infinite? || value > bound
    }
  }

  /** The local costmap message: header sequence number, cell size, dimensions in cells, row-major costs. */
  datatype OccupancyGrid = OccupancyGrid(headerSeq: nat, resolution: real, width: nat, height: nat, data: seq<int>)

  /** The grid held before the first costmap message arrives. */
  const EmptyGrid := OccupancyGrid(0, 0.0, 0, 0, [])

  /**
   * What the engine asks of the outside world. In the source the three tests
   * are placeholders that answer false: checkIsNewDoor, edgeExists, and the
   * verdict of directNavigable.
   */
  datatype Collaborators = Collaborators(
    dist: (Pose, Pose) -> real,           // calcDistance
    isNewDoor: bool,                      // checkIsNewDoor for the current pose
    edgeExists: (Node, Node) -> bool,     // edgeExists
    navigable: (Pose, Pose) -> bool,      // the verdict directNavigable returns
    toCostmapLocal: Pose -> Point,        // tf transform from /map to local_costmap_origin
    edgeCost: (Node, Node) -> real)       // the cost the TopoNavEdge constructor assigns

  /** The fixed minimum spacing checkCreateNode compares against. */
  const MinNodeSpacing: real := 1.0
  /** max_dist_between_nodes_, set to 3.0 by the constructor and never changed. */
  const MaxDistBetweenNodes: real := 3.0
  /** The area id every created node receives. */
  const DefaultAreaId: int := 1
}
