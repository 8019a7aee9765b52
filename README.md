# Topological navigation map engine

A Dafny model of the `TopoNavMap` engine of `st_topological_mapping`. The engine
keeps a topological map of the places a robot has visited. The map has two
id-keyed stores, nodes and edges, and an edge names its two end nodes by id.
The engine grows the map as the robot moves:

- `checkCreateNode` makes a node at the robot's pose when the door test fires
  or every node is farther than 1.0 away.
- `checkCreateEdges` then links the new node to every other node within
  `max_dist_between_nodes_` (3.0) for which `edgeExists` says no and
  `directNavigable` says yes.
- `directNavigable` keeps a matrix snapshot of the local costmap. It rebuilds
  the snapshot from the flattened occupancy array only when a newer message
  (by header sequence number) has arrived.
- The map is published as ordered node and edge records and can be loaded
  back from such records.

The model is split into six modules:

- `TopoNavTypes` (`toponav_types.dfy`): the value types, and the
  collaborators the engine consults but does not own. These are the distance
  function, the door test, `edgeExists`, the navigability verdict, the
  transform into costmap coordinates and the cost a new edge receives.
- `OrderedIds` (`ordered_ids.dfy`): the ascending order in which a `std::map`
  yields its keys, and a method that walks them in that order.
- `CostmapCells` (`costmap_cells.dfy`): row-major indexing, and the
  conversion of a point into a grid cell with its bounds test.
- `TopoNavGraph` (`toponav_graph.dfy`): the graph invariants, the cascade
  delete, and the edges `checkCreateEdges` adds, as specification functions
  with their lemmas.
- `TopoNavMsgs` (`toponav_msgs.dfy`): the record conversions, the published
  listing and the load, with the round-trip lemmas.
- `TopoNavEngine` (`toponav_map.dfy`): the class `TopoNavMap`. Its fields are
  the two maps, the two id counters, the costmap sequence number and the
  matrix (`array2<int>`). Every operation that changes them is a method with
  `modifies`, proved against the functions above. The methods that loop
  (the nearest-node scan, the edge-creation walk, the listing and the load)
  carry loop invariants; `AddNode`, `AddEdge` and `DeleteEdge` are single
  updates.

The invariant `Valid()` holds throughout. It says that every entry is stored
under its own id, that no edge refers to a missing node, and that both
counters lie above every id in use.

## Model

| member | source | states |
|---|---|---|
| TopoNavEngine.TopoNavMap.constructor | st_topological_mapping/src/toponav_map.cpp:12-36 | The one updateMap run at construction, on an empty map before any costmap, creates exactly one node, numbered 0 by the model's counter (area 1, the door flag of the door test), and no edge; the snapshot sequence number stays 0 and the matrix stays 0 x 0 |
| TopoNavEngine.TopoNavMap.AddNode | st_topological_mapping/src/toponav_map.cpp:378-380 | The new node gets the next counter value, which is above every existing id, so it is the map's last entry; nothing else changes and Valid is kept |
| TopoNavEngine.TopoNavMap.AddEdge | st_topological_mapping/src/toponav_map.cpp:370-373 | An edge between two existing nodes is stored under a fresh id, with the cost its end nodes determine; Valid is kept |
| TopoNavEngine.TopoNavMap.DeleteEdge | st_topological_mapping/src/toponav_map.cpp:385-390 | Exactly that edge is removed, the nodes stay, and no dangling edge can arise |
| TopoNavEngine.TopoNavMap.ConnectedEdges | st_topological_mapping/src/toponav_map.cpp:406-416 | The result holds exactly the edges whose start or end id is the node, each as stored; the map is not changed |
| TopoNavEngine.TopoNavMap.DeleteNode | st_topological_mapping/src/toponav_map.cpp:395-404 | The connected edges are deleted, then the node; the nodes become the old nodes minus that id, the edges become exactly the edges not touching it, and Valid is kept |
| TopoNavGraph.CascadeDeleteKeepsClosed | st_topological_mapping/src/toponav_map.cpp:398-404 | After the cascade no edge refers to the deleted node or to any missing node; the kept edges are the old ones minus the connected ones, each unchanged |
| TopoNavEngine.TopoNavMap.DistanceToClosestNode | st_topological_mapping/src/toponav_map.cpp:339-365 | Infinite exactly on an empty map; otherwise a distance no greater than any node's distance, attained by the reported node, which is the lowest id among the nearest nodes (a later tie does not replace it) |
| TopoNavEngine.ClosestExceedsIffFarFromAll | st_topological_mapping/src/toponav_map.cpp:210 | The nearest distance exceeds 1 exactly when every node is farther than 1 from the robot (an empty map included) |
| TopoNavEngine.TopoNavMap.CheckCreateNode | st_topological_mapping/src/toponav_map.cpp:200-223 | A node is created exactly when the door test fires or every node is farther than 1; it is the next id with area 1 and the door flag, and then receives exactly the edges checkCreateEdges gives it; otherwise no field changes |
| TopoNavEngine.TopoNavMap.CheckCreateEdges | st_topological_mapping/src/toponav_map.cpp:228-247 | The edges become the old edges plus one new edge per qualifying node, in ascending id order under consecutive ids; the result is true exactly when some edge was added; the snapshot is refreshed only if directNavigable was consulted |
| TopoNavEngine.TopoNavMap.LinkCandidates | st_topological_mapping/src/toponav_map.cpp:233-242 | After the walk over the given ids, the edges added are those to the qualifying ids, in visiting order, and the flag records whether any edge was made |
| TopoNavEngine.TopoNavMap.VisitCandidate | st_topological_mapping/src/toponav_map.cpp:234-241 | A node gets an edge exactly when it is not the new node, lies within 3.0, has no edge according to edgeExists and is navigable; directNavigable is consulted exactly when the first three tests pass |
| TopoNavGraph.FewerThanTwoNodesLinkNothing | st_topological_mapping/src/toponav_map.cpp:231 | With fewer than two nodes nothing qualifies and directNavigable is never consulted |
| TopoNavGraph.FewerThanTwoNodesLinked | st_topological_mapping/src/toponav_map.cpp:231 | The early return leaves the edges exactly as a walk over the whole map would have: nothing linked, nothing consulted, no edge id used |
| TopoNavGraph.FirstNodeLinksNothing | st_topological_mapping/src/toponav_map.cpp:29 | Linking the only node of a map adds no edge, uses no edge id and consults nothing |
| TopoNavEngine.FirstUpdate | st_topological_mapping/src/toponav_map.cpp:29 | The first updateMap, on an empty map with both counters at 0, always creates node 0 and no edge, and never consults directNavigable |
| TopoNavGraph.NewEdgesAreExactlyTheQualifying | st_topological_mapping/src/toponav_map.cpp:233-245 | Every added edge starts at the new node, never ends there, ends at a node within 3.0 for which edgeExists said no and the verdict said yes; every such node receives an edge, and no node receives two |
| TopoNavGraph.TargetsEmptyIffNoneQualifies | st_topological_mapping/src/toponav_map.cpp:245 | checkCreateEdges reports an edge exactly when some node qualifies |
| TopoNavGraph.StubNavigabilityLinksNothing | st_topological_mapping/src/toponav_map.cpp:254 | With the placeholder verdict, which is always false, checkCreateEdges adds nothing |
| TopoNavGraph.TargetsAscending | st_topological_mapping/src/toponav_map.cpp:233 | The walk meets the nodes to link in strictly ascending id order |
| TopoNavGraph.QualifyingAmong | st_topological_mapping/src/toponav_map.cpp:233-242 | The nodes linked while walking a sequence of ids are exactly the ids in it that qualify |
| TopoNavGraph.EdgeTargets | st_topological_mapping/src/toponav_map.cpp:233-242 | The nodes the walk over the whole node map links the new node to are exactly the nodes of the map that qualify |
| TopoNavGraph.QualifyingAmongAscending | st_topological_mapping/src/toponav_map.cpp:233 | Filtering an ascending walk keeps it ascending |
| TopoNavGraph.QualifyingAmongExtend | st_topological_mapping/src/toponav_map.cpp:238-241 | Visiting one more node extends the linked nodes by it exactly when it qualifies |
| TopoNavGraph.NoneQualifyAmong | st_topological_mapping/src/toponav_map.cpp:238-241 | A walk links nothing exactly when no id in it qualifies |
| TopoNavGraph.NewEdges | st_topological_mapping/src/toponav_map.cpp:239 | The edges made for a list of targets occupy exactly the consecutive ids from the first free one, the i-th going from the new node to the i-th target |
| TopoNavGraph.NewEdgesExtend | st_topological_mapping/src/toponav_map.cpp:239 | One more target adds one edge under the next id |
| TopoNavGraph.CreateEdgesStep | st_topological_mapping/src/toponav_map.cpp:238-241 | One turn of the loop: the edge map grows by the edge to the visited node exactly when that node qualifies |
| TopoNavGraph.LinkedStart | st_topological_mapping/src/toponav_map.cpp:230 | Before the loop nothing is visited, linked or consulted |
| TopoNavGraph.LinkedStep | st_topological_mapping/src/toponav_map.cpp:233-242 | The walk's state after the first i ids extends to the first i+1 ids |
| TopoNavGraph.LinkedExtend | st_topological_mapping/src/toponav_map.cpp:234-241 | The walk's state after some ids extends by one more visited id |
| TopoNavGraph.AskedStep | st_topological_mapping/src/toponav_map.cpp:238 | directNavigable has been consulted after one more id exactly when it had been before or is for that id |
| TopoNavGraph.LinkedAll | st_topological_mapping/src/toponav_map.cpp:233-245 | Once every id has been visited in ascending order, the edges added are exactly the edges to the qualifying nodes |
| TopoNavEngine.TopoNavMap.RefreshCostmap | st_topological_mapping/src/toponav_map.cpp:259-272 | The sequence number becomes the message's; the matrix is a fresh height x width array whose entry (i, j) is data[i*width + j] |
| TopoNavEngine.TopoNavMap.DirectNavigable | st_topological_mapping/src/toponav_map.cpp:252-283 | The snapshot is rebuilt exactly when the message's sequence number is above the stored one and is otherwise untouched; the cost under point1 is read only when its cell lies inside the matrix; the verdict is the navigability verdict |
| CostmapCells.RowMajorIndex | st_topological_mapping/src/toponav_map.cpp:270 | The index i*width + j of an in-range entry lies below width*height, and division and remainder by width recover i and j |
| CostmapCells.RowMajorCovers | st_topological_mapping/src/toponav_map.cpp:268-271 | Every position of the flattened data is the row-major index of one in-range entry |
| CostmapCells.MapPoint2CostmapCell | st_topological_mapping/src/toponav_map.cpp:307-308 | The row is floor(y / resolution) and the column floor(x / resolution): the cell's extent contains the point |
| CostmapCells.CellIsUnique | st_topological_mapping/src/toponav_map.cpp:307-308 | The cell found is the only cell whose extent contains the point |
| CostmapCells.OutOfBounds | st_topological_mapping/src/toponav_map.cpp:310 | A cell that passes the bounds test lies inside the height x width matrix, its row-major position lies inside the flattened data, and so the grid is not empty |
| CostmapCells.InBoundsIffInsideGrid | st_topological_mapping/src/toponav_map.cpp:310 | The bounds test passes exactly when the point lies in [0, width*resolution) x [0, height*resolution) |
| CostmapCells.UncheckedReadOutsideEmptyMatrix | st_topological_mapping/src/toponav_map.cpp:275-277 | With the 0 x 0 snapshot, the cell directNavigable reads lies outside the matrix for every point |
| TopoNavEngine.ZeroNumberedCostmapLeavesNothingToRead | st_topological_mapping/src/toponav_map.cpp:256-277 | On a freshly built map, directNavigable with a costmap message numbered 0 leaves the matrix 0 x 0, the cell of point1 that line 277 reads lies outside it, and the model reads no sample |
| TopoNavEngine.TopoNavMap.PublishTopoNavMap | st_topological_mapping/src/toponav_map.cpp:89-101 | The message is the node records and then the edge records of the current map, each in ascending id order; nothing changes |
| TopoNavEngine.TopoNavMap.ListNodes | st_topological_mapping/src/toponav_map.cpp:93-95 | The node loop emits one record per node, in ascending id order |
| TopoNavMsgs.EncodeMap | st_topological_mapping/src/toponav_map.cpp:89-101 | The message has one node record per node and one edge record per edge; the i-th record of each list encodes the entry under the i-th smallest id |
| TopoNavEngine.TopoNavMap.ListEdges | st_topological_mapping/src/toponav_map.cpp:96-98 | The edge loop emits one record per edge, in ascending id order |
| TopoNavMsgs.EncodeMapOrdered | st_topological_mapping/src/toponav_map.cpp:89-101 | The published records are ordered by strictly ascending id, one per entry, each a field-by-field copy of its entry |
| TopoNavMsgs.ListingOrdered | st_topological_mapping/src/toponav_map.cpp:93-98 | Listing entries in iterator order gives as many records as entries, in strictly ascending key order, each the encoding of its entry |
| TopoNavMsgs.ListingKeys | st_topological_mapping/src/toponav_map.cpp:93-98 | The i-th record is the encoding of the entry under the i-th smallest key |
| TopoNavMsgs.ListingFacts | st_topological_mapping/src/toponav_map.cpp:93-98 | A listing has one record per id, the i-th encoding the entry under the i-th id |
| TopoNavMsgs.ListingStep | st_topological_mapping/src/toponav_map.cpp:93-98 | Visiting the smallest unvisited key appends its record to the listing |
| TopoNavMsgs.NodeToMsg | st_topological_mapping/src/toponav_map.cpp:453-463 | The node record carries the node's id and is turned back into the same node by nodeFromRosMsg |
| TopoNavMsgs.EdgeToMsg | st_topological_mapping/src/toponav_map.cpp:442-451 | The edge record carries the edge's id and end ids and is turned back into the same edge by the load |
| TopoNavMsgs.NodeFromMsg | st_topological_mapping/src/toponav_map.cpp:419-431 | The node takes every field of the record: id, time, pose, door flag and area |
| TopoNavMsgs.RecordNodeRecord | st_topological_mapping/src/toponav_map.cpp:419-431 | Reading a node record and writing the node back gives the same record |
| TopoNavMsgs.EdgeFromMsg | st_topological_mapping/src/toponav_map.cpp:137-144 | The edge takes the record's id, time and cost and joins the start and end ids the record names; edgeFromRosMsg (433-441) builds the same edge |
| TopoNavMsgs.RecordEdgeRecord | st_topological_mapping/src/toponav_map.cpp:433-441 | Reading an edge record and writing the edge back gives the same record |
| TopoNavMsgs.Collect | st_topological_mapping/src/toponav_map.cpp:132-146 | Inserting records one after the other yields a map keyed by exactly the ids the records carry |
| TopoNavMsgs.CollectLastWins | st_topological_mapping/src/toponav_map.cpp:132-146 | The entry under an id is decoded from the last record carrying that id |
| TopoNavMsgs.DecodeNodes | st_topological_mapping/src/toponav_map.cpp:132-135 | The loaded nodes are keyed by exactly the node record ids, each node read from the last record with its id |
| TopoNavMsgs.DecodeEdges | st_topological_mapping/src/toponav_map.cpp:136-146 | The loaded edges are keyed by exactly the edge record ids, each edge read from the last record with its id |
| TopoNavMsgs.CollectNext | st_topological_mapping/src/toponav_map.cpp:132-135 | Loading one more record inserts it into the map loaded so far, replacing an entry with the same id |
| TopoNavMsgs.CollectListing | st_topological_mapping/src/toponav_map.cpp:127-148 | Loading the ascending listing of some entries gives back exactly those entries |
| TopoNavMsgs.EncodeLoadRoundTrip | st_topological_mapping/src/toponav_map.cpp:127-148 | Loading the published message of a valid map is accepted and gives back both maps |
| TopoNavMsgs.DecodeEncodedNodes | st_topological_mapping/src/toponav_map.cpp:419-431 | Decoding the published node records gives back the node map |
| TopoNavMsgs.DecodeEncodedEdges | st_topological_mapping/src/toponav_map.cpp:433-441 | Decoding the published edge records gives back the edge map |
| TopoNavMsgs.EncodedEdgesWellFormed | st_topological_mapping/src/toponav_map.cpp:141-142 | In a published message every edge record names node ids that the node records carry |
| TopoNavMsgs.EncodedNodeIds | st_topological_mapping/src/toponav_map.cpp:93-95 | The node ids of a published message are exactly the map's node ids |
| TopoNavMsgs.EncodedEdgeEnds | st_topological_mapping/src/toponav_map.cpp:96-98 | Every published edge record joins two nodes of the map |
| TopoNavMsgs.DecodeNodesKeyed | st_topological_mapping/src/toponav_map.cpp:419-431 | Every loaded node is stored under its own id |
| TopoNavMsgs.DecodeEdgesKeyed | st_topological_mapping/src/toponav_map.cpp:433-441 | Every loaded edge is stored under its own id and joins two ids named by some record |
| TopoNavMsgs.LoadedMapValid | st_topological_mapping/src/toponav_map.cpp:127-148 | Loading an accepted message yields a map whose entries are keyed by their ids and whose edges join loaded nodes |
| TopoNavEngine.TopoNavMap.LoadMapFromMsg | st_topological_mapping/src/toponav_map.cpp:127-148 | Both maps are cleared, then every node record and then every edge record is inserted in message order; Valid holds after, and the counters never decrease |
| TopoNavEngine.TopoNavMap.LoadNodes | st_topological_mapping/src/toponav_map.cpp:132-135 | The node loop leaves exactly the decoded node records, the last record with an id deciding its node, and the node counter above every loaded id |
| TopoNavEngine.TopoNavMap.LoadEdges | st_topological_mapping/src/toponav_map.cpp:136-146 | The edge loop leaves exactly the decoded edge records, the last record with an id deciding its edge, and the edge counter above every loaded id |
| TopoNavEngine.TopoNavMap.UpdateMap | st_topological_mapping/src/toponav_map.cpp:153-195 | One node-creation step at the given pose, then a publish of the resulting map |
| OrderedIds.SortedIds | st_topological_mapping/src/toponav_map.cpp:93 | The keys a std::map iterator yields: each key once, and nothing else |
| OrderedIds.SortedIdsAscending | st_topological_mapping/src/toponav_map.cpp:93 | The keys come out in strictly ascending order |
| OrderedIds.SortedIdsExtend | st_topological_mapping/src/toponav_map.cpp:233 | A key above all the others comes last |
| OrderedIds.PickSmallest | st_topological_mapping/src/toponav_map.cpp:348 | The next key the iterator yields is the smallest one not yet visited |
| OrderedIds.VisitSmallest | st_topological_mapping/src/toponav_map.cpp:348 | Visiting the smallest unvisited key keeps every visited key below every unvisited one |
| OrderedIds.SortedKeys | st_topological_mapping/src/toponav_map.cpp:233 | The iterator's walk over the node map yields exactly the keys in ascending order |

## Left out

- ROS plumbing is not part of this model: subscriptions, publishers, the laser and costmap callbacks, the tf broadcast, the `publish` call itself and all logging. The published message is the result of `PublishTopoNavMap`.
- `getCurrentPose` is not modelled. The robot pose is a parameter of `UpdateMap` and `CheckCreateNode`. When the source's tf lookup fails, it keeps the previous transform, so the pose is then stale.
- The tf transform of a /map point into the costmap origin frame is the collaborator `toCostmapLocal`, so `MapPoint2CostmapCell` takes local coordinates.
- `calcDistance` is the collaborator `dist`. Its floating-point square root is not modelled.
- `checkIsNewDoor`, `edgeExists` and the verdict of `directNavigable` are collaborator fields. In the source each is a placeholder that always answers false. `StubNavigabilityLinksNothing` states what that placeholder verdict implies.
- Node and edge constructors are not part of this model. They are modelled as:
  - ids from the counters `nextNodeId` and `nextEdgeId`, each above every id in use;
  - an edge's cost from the collaborator `edgeCost`;
  - the creation time as the parameter `now`.
- Unknown ids: the source's `deleteNode` and `deleteEdge` look up `nodes_[id]` and `edges_[id]` (lines 386 and 396) without checking. `DeleteNode` and `DeleteEdge` require the id to be present instead.
- AddEdge: the source's `addEdge` (370-373) takes references to two nodes. The model's `AddEdge` takes their ids, so it requires both ids to be in the map.
- LoadMapFromMsg: the source inserts edges through `nodes_[start]` and `nodes_[end]` without checking. The model requires `WellFormedMsg`, meaning every edge record names ids that the node records carry.
- LoadMapFromMsg: when a message repeats an id, the last record wins.
- LoadMapFromMsg: the id counters are raised above every loaded id. The source's constructors are not shown, so this is how the model keeps later ids fresh.
- LoadMapFromMsg: the debug log at line 145 evaluates `toponavmap_msg.nodes.at(i)` with the edge index `i`. With debug output enabled and more edge records than node records (say 4 nodes and 5 edges), `.at` throws `std::out_of_range` right after edge record number |nodes| is inserted, and the load stops with the remaining edge records not inserted. The model loads every edge record; it does not model logging or exceptions.
- DirectNavigable reads the sample cell only when the resolution is above 0 and the cell lies inside the matrix. The source divides and reads unconditionally; see Findings. The sample is returned as `sample`, since the source only logs it.
- The path check of `directNavigable` (the commented-out `getCMLineCost`) is not in the source and is not modelled.
- RefreshCostmap allocates a new matrix rather than resizing the existing one in place.
- The grid message is a parameter (`grid`). `CompleteGrid` requires a newer message to carry at least width*height costs, which the source assumes when it indexes `data`.
- The debug-only `initialposeCB`, the commented-out timed test code and the destructor are not modelled. Ownership through raw `new` and `delete` becomes values stored in maps.
- MapPoint2CostmapCell: the model divides exactly over the reals. The source floors a `double` quotient, which can round across a cell boundary for a point very close to one.
- Poses are planar (x, y, yaw); the 3-D `tf::Pose` and its quaternion are not modelled.
- EncodeLoadRoundTrip treats `poseTFToMsg` and `poseMsgToTF` as exact inverses; their floating-point conversion is not modelled.
- The id counters start at 0, so the first node is numbered 0. The node and edge constructors are not shown, so this starting value is a modelling choice.
- `checkCreateNode` reads `getNumberOfNodes()` into a local variable that it never uses. The model leaves the variable out.

## Findings

| source | as written | input that shows it | evidently intended | confidence | as-written member | corrected member |
|---|---|---|---|---|---|---|
| st_topological_mapping/src/toponav_map.cpp:275-277 | directNavigable reads `costmap_matrix_(i_cell, j_cell)` even when mapPoint2costmapCell reported the cell out of bounds | The first costmap message carries header.seq 0. It is never copied, so the matrix stays 0 x 0 (`TopoNavEngine.ZeroNumberedCostmapLeavesNothingToRead` derives this on a freshly built map). Then a second node is created within 3.0 of the first, and the cell read lies outside the matrix for any pose | Read the cost only for a cell inside the matrix | medium, not executed | CostmapCells.UncheckedReadOutsideEmptyMatrix | TopoNavEngine.TopoNavMap.DirectNavigable |
