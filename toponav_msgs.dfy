/**
 * The wire form of the map: publishTopoNavMap lists node records and then
 * edge records, each in ascending id order; loadMapFromMsg rebuilds the two
 * maps from such records, all nodes before any edge.
 */
module TopoNavMsgs {
  import opened TopoNavTypes
  import opened OrderedIds
  import opened TopoNavGraph

  /** nodeToRosMsg: a field-by-field copy, undone by nodeFromRosMsg. */
  function NodeToMsg(n: Node): (m: NodeMsg)
    ensures m.nodeId == n.id
    ensures NodeFromMsg(m) == n
  {
    NodeMsg(n.id, n.lastUpdated, n.pose, n.isDoor, n.areaId)
  }

  /** nodeFromRosMsg: the node a record describes, every field copied; see RecordNodeRecord for the way back. */
  function NodeFromMsg(m: NodeMsg): (n: Node)
    ensures n.id == m.nodeId && n.lastUpdated == m.lastUpdated && n.pose == m.pose
    ensures n.isDoor == m.isDoor && n.areaId == m.areaId
  {
    Node(m.nodeId, m.lastUpdated, m.pose, m.isDoor, m.areaId)
  }

  function NodeMsgId(m: NodeMsg): NodeId
  {
    m.nodeId
  }

  /** edgeToRosMsg: a field-by-field copy, undone by the edge constructor the load calls. */
  function EdgeToMsg(e: Edge): (m: EdgeMsg)
    ensures m.edgeId == e.id && m.startNodeId == e.startId && m.endNodeId == e.endId
    ensures EdgeFromMsg(m) == e
  {
    EdgeMsg(e.id, e.lastUpdated, e.startId, e.endId, e.cost)
  }

  /** The edge a record describes, joining the ids it names; see RecordEdgeRecord for the way back. */
  function EdgeFromMsg(m: EdgeMsg): (e: Edge)
    ensures e.id == m.edgeId && e.startId == m.startNodeId && e.endId == m.endNodeId
    ensures e.lastUpdated == m.lastUpdated && e.cost == m.cost
  {
    Edge(m.edgeId, m.lastUpdated, m.cost, m.startNodeId, m.endNodeId)
  }

  function EdgeMsgId(m: EdgeMsg): EdgeId
  {
    m.edgeId
  }

  /** The records of the entries of `m` under `ids`, in that order. */
  function Listing<V, M>(m: map<nat, V>, ids: seq<nat>, enc: V -> M): seq<M>
    requires forall k :: k in ids ==> k in m
  {
    if ids == [] then []
    else
      assert forall k :: k in ids[..|ids| - 1] ==> k in ids;
      Listing(m, ids[..|ids| - 1], enc) + [enc(m[ids[|ids| - 1]])]
  }

  /** Inserting the decoded records one after the other, a later record replacing an earlier one with the same key. */
  function Collect<M(!new), V>(recs: seq<M>, key: M -> nat, dec: M -> V): (r: map<nat, V>)
    ensures r.Keys == set x | x in recs :: key(x)
  {
    if recs == [] then map[]
    else
      var front := recs[..|recs| - 1];
      assert forall x :: x in recs <==> x in front || x == recs[|recs| - 1];
      Collect(front, key, dec)[key(recs[|recs| - 1]) := dec(recs[|recs| - 1])]
  }

  /** Record i is the last record carrying its key. */
  ghost predicate LastWithKey<M>(recs: seq<M>, key: M -> nat, i: nat)
    requires i < |recs|
  {
    forall j :: i < j < |recs| ==> key(recs[j]) != key(recs[i])
  }

  /** A key's entry is decoded from the last record carrying that key. */
  lemma {:induction false} CollectLastWins<M(!new), V>(recs: seq<M>, key: M -> nat, dec: M -> V)
    ensures forall i :: 0 <= i < |recs| && LastWithKey(recs, key, i) ==> Collect(recs, key, dec)[key(recs[i])] == dec(recs[i])
  {
    if recs != [] {
      var front := recs[..|recs| - 1];
      CollectLastWins(front, key, dec);
      forall i | 0 <= i < |recs| && LastWithKey(recs, key, i)
        ensures Collect(recs, key, dec)[key(recs[i])] == dec(recs[i])
      {
        if i < |recs| - 1 {
          assert LastWithKey(front, key, i);
          assert key(recs[|recs| - 1]) != key(recs[i]);
        }
      }
    }
  }

  /** A record read into a node and written back is the same record. */
  lemma RecordNodeRecord(m: NodeMsg)
    ensures NodeToMsg(NodeFromMsg(m)) == m
  {}

  /** A record read into an edge and written back is the same record. */
  lemma RecordEdgeRecord(m: EdgeMsg)
    ensures EdgeToMsg(EdgeFromMsg(m)) == m
  {}

  ghost function NodeIdsOf(msg: MapMsg): set<NodeId>
  {
    set r | r in msg.nodes :: NodeMsgId(r)
  }

  /** A message the load can take: every edge record names node ids that the node records carry. */
  ghost predicate WellFormedMsg(msg: MapMsg)
  {
    forall r :: r in msg.edges ==> r.startNodeId in NodeIdsOf(msg) && r.endNodeId in NodeIdsOf(msg)
  }

  /** The load's node loop: one node per record id, the last record with an id deciding its node. */
  function DecodeNodes(recs: seq<NodeMsg>): (r: map<NodeId, Node>)
    ensures r.Keys == set x | x in recs :: x.nodeId
    ensures forall i {:trigger LastWithKey(recs, NodeMsgId, i)} :: 0 <= i < |recs| && LastWithKey(recs, NodeMsgId, i) ==> r[recs[i].nodeId] == NodeFromMsg(recs[i])
  {
    CollectLastWins(recs, NodeMsgId, NodeFromMsg);
    Collect(recs, NodeMsgId, NodeFromMsg)
  }

  /** The load's edge loop: one edge per record id, the last record with an id deciding its edge. */
  function DecodeEdges(recs: seq<EdgeMsg>): (r: map<EdgeId, Edge>)
    ensures r.Keys == set x | x in recs :: x.edgeId
    ensures forall i {:trigger LastWithKey(recs, EdgeMsgId, i)} :: 0 <= i < |recs| && LastWithKey(recs, EdgeMsgId, i) ==> r[recs[i].edgeId] == EdgeFromMsg(recs[i])
  {
    CollectLastWins(recs, EdgeMsgId, EdgeFromMsg);
    Collect(recs, EdgeMsgId, EdgeFromMsg)
  }

  /** The i-th of `recs` encodes the entry of `m` under the i-th smallest key, for every key of `m`. */
  ghost predicate InIdOrder<V, M>(m: map<nat, V>, recs: seq<M>, enc: V -> M)
  {
    var ids := SortedIds(m.Keys);
    |recs| == |ids| && forall i :: 0 <= i < |recs| ==> recs[i] == enc(m[ids[i]])
  }

  /** The message publishTopoNavMap builds from the two maps. */
  ghost function EncodeMap(nodes: map<NodeId, Node>, edges: map<EdgeId, Edge>): (msg: MapMsg)
    ensures |msg.nodes| == |nodes| && |msg.edges| == |edges|
    ensures InIdOrder(nodes, msg.nodes, NodeToMsg) && InIdOrder(edges, msg.edges, EdgeToMsg)
  {
    ListingFacts(nodes, SortedIds(nodes.Keys), NodeToMsg);
    ListingFacts(edges, SortedIds(edges.Keys), EdgeToMsg);
    MapMsg(Listing(nodes, SortedIds(nodes.Keys), NodeToMsg), Listing(edges, SortedIds(edges.Keys), EdgeToMsg))
  }

  lemma ListingExtend<V, M>(m: map<nat, V>, ids: seq<nat>, k: nat, enc: V -> M)
    requires forall j :: j in ids ==> j in m
    requires k in m
    ensures Listing(m, ids + [k], enc) == Listing(m, ids, enc) + [enc(m[k])]
  {
    assert (ids + [k])[..|ids|] == ids;
  }

  /** Listing one more id, larger than all listed so far, appends its record. */
  lemma ListingSortedExtend<V, M>(m: map<nat, V>, visited: set<nat>, k: nat, enc: V -> M)
    requires visited <= m.Keys && k in m
    requires forall j :: j in visited ==> j < k
    ensures Listing(m, SortedIds(visited + {k}), enc) == Listing(m, SortedIds(visited), enc) + [enc(m[k])]
  {
    SortedIdsExtend(visited, k);
    ListingExtend(m, SortedIds(visited), k, enc);
  }

  /**
   * One turn of an ascending walk over the keys of `m`: visiting the
   * smallest unvisited key appends its record to the listing so far.
   */
  lemma ListingStep<V, M>(m: map<nat, V>, visited: set<nat>, remaining: set<nat>, k: nat, enc: V -> M)
    requires remaining <= m.Keys && visited == m.Keys - remaining
    requires forall a, b :: a in visited && b in remaining ==> a < b
    requires k in remaining && forall j :: j in remaining ==> k <= j
    ensures remaining - {k} <= m.Keys && visited + {k} == m.Keys - (remaining - {k})
    ensures forall a, b :: a in visited + {k} && b in remaining - {k} ==> a < b
    ensures Listing(m, SortedIds(visited + {k}), enc) == Listing(m, SortedIds(visited), enc) + [enc(m[k])]
  {
    VisitSmallest(m.Keys, visited, remaining, k);
    ListingSortedExtend(m, visited, k, enc);
  }

  lemma CollectExtend<M(!new), V>(recs: seq<M>, x: M, key: M -> nat, dec: M -> V)
    ensures Collect(recs + [x], key, dec) == Collect(recs, key, dec)[key(x) := dec(x)]
  {
    assert (recs + [x])[..|recs|] == recs;
  }

  /** Decoding one more record of a prefix inserts that record into the decoded prefix. */
  lemma CollectNext<M(!new), V>(recs: seq<M>, i: nat, key: M -> nat, dec: M -> V)
    requires i < |recs|
    ensures Collect(recs[..i + 1], key, dec) == Collect(recs[..i], key, dec)[key(recs[i]) := dec(recs[i])]
  {
    assert recs[..i + 1] == recs[..i] + [recs[i]];
    CollectExtend(recs[..i], recs[i], key, dec);
  }

  /** A listing has one record per id, the i-th encoding the entry under the i-th id. */
  lemma {:induction false} ListingFacts<V, M>(m: map<nat, V>, ids: seq<nat>, enc: V -> M)
    requires forall k :: k in ids ==> k in m
    ensures |Listing(m, ids, enc)| == |ids|
    ensures forall i :: 0 <= i < |ids| ==> Listing(m, ids, enc)[i] == enc(m[ids[i]])
  {
    if ids != [] {
      var front := ids[..|ids| - 1];
      assert forall k :: k in front ==> k in ids;
      ListingFacts(m, front, enc);
    }
  }

  /** Listing the entries under `s` in ascending id order gives records ordered by their keys. */
  lemma ListingOrdered<V, M>(m: map<nat, V>, s: set<nat>, enc: V -> M, key: M -> nat)
    requires s <= m.Keys
    requires forall k :: k in m ==> key(enc(m[k])) == k
    ensures var recs := Listing(m, SortedIds(s), enc);
      && |recs| == |s|
      && (forall i, j :: 0 <= i < j < |recs| ==> key(recs[i]) < key(recs[j]))
      && (forall i :: 0 <= i < |recs| ==> key(recs[i]) in s && recs[i] == enc(m[key(recs[i])]))
  {
    var ids := SortedIds(s);
    var recs := Listing(m, ids, enc);
    ListingKeys(m, s, enc, key);
    forall i, j | 0 <= i < j < |recs|
      ensures key(recs[i]) < key(recs[j])
    {
      SortedIdsAscending(s);
    }
  }

  /** Record i of the listing is the encoding of the i-th smallest key's entry. */
  lemma ListingKeys<V, M>(m: map<nat, V>, s: set<nat>, enc: V -> M, key: M -> nat)
    requires s <= m.Keys
    requires forall k :: k in m ==> key(enc(m[k])) == k
    ensures var ids := SortedIds(s); var recs := Listing(m, ids, enc);
      && |recs| == |ids| == |s|
      && forall i :: 0 <= i < |recs| ==> key(recs[i]) == ids[i] && ids[i] in s && recs[i] == enc(m[ids[i]])
  {
    var ids := SortedIds(s);
    ListingFacts(m, ids, enc);
    assert forall i :: 0 <= i < |ids| ==> ids[i] in ids;
  }


  /**
   * Decoding the listing of the entries under the ids in `s`, in ascending
   * order, gives back exactly those entries, provided each entry's record
   * carries its key and decodes to the entry.
   */
  lemma {:induction false} CollectListing<V, M(!new)>(m: map<nat, V>, s: set<nat>, enc: V -> M, key: M -> nat, dec: M -> V)
    requires s <= m.Keys
    requires forall k :: k in m ==> key(enc(m[k])) == k && dec(enc(m[k])) == m[k]
    ensures Collect(Listing(m, SortedIds(s), enc), key, dec) == map k | k in s :: m[k]
    decreases s
  {
    if s != {} {
      var top := MaxOf(s);
      var rest := s - {top};
      var ids := SortedIds(rest);
      var front := Listing(m, ids, enc);
      var x := enc(m[top]);
      CollectListing(m, rest, enc, key, dec);
      assert SortedIds(s) == ids + [top];
      ListingExtend(m, ids, top, enc);
      CollectExtend(front, x, key, dec);
      assert key(x) == top && dec(x) == m[top];
      MapSplit(m, s, top);
    }
  }

  lemma MapSplit<V>(m: map<nat, V>, s: set<nat>, top: nat)
    requires s <= m.Keys && top in s
    ensures (map k | k in s :: m[k]) == (map k | k in s - {top} :: m[k])[top := m[top]]
  {
  }

  /**
   * The records are ordered ascending by id, one per entry, each a copy of
   * its entry: node records first, then edge records.
   */
  lemma EncodeMapOrdered(nodes: map<NodeId, Node>, edges: map<EdgeId, Edge>)
    requires KeyedById(nodes, edges)
    ensures var msg := EncodeMap(nodes, edges);
      && |msg.nodes| == |nodes| && |msg.edges| == |edges|
      && (forall i, j :: 0 <= i < j < |msg.nodes| ==> msg.nodes[i].nodeId < msg.nodes[j].nodeId)
      && (forall i, j :: 0 <= i < j < |msg.edges| ==> msg.edges[i].edgeId < msg.edges[j].edgeId)
      && (forall i :: 0 <= i < |msg.nodes| ==> msg.nodes[i].nodeId in nodes && msg.nodes[i] == NodeToMsg(nodes[msg.nodes[i].nodeId]))
      && (forall i :: 0 <= i < |msg.edges| ==> msg.edges[i].edgeId in edges && msg.edges[i] == EdgeToMsg(edges[msg.edges[i].edgeId]))
  {
    NodeRecordsOrdered(nodes);
    EdgeRecordsOrdered(edges);
  }

  lemma NodeRecordsOrdered(nodes: map<NodeId, Node>)
    requires NodesKeyedById(nodes)
    ensures var recs := Listing(nodes, SortedIds(nodes.Keys), NodeToMsg);
      && |recs| == |nodes|
      && (forall i, j :: 0 <= i < j < |recs| ==> recs[i].nodeId < recs[j].nodeId)
      && (forall i :: 0 <= i < |recs| ==> recs[i].nodeId in nodes && recs[i] == NodeToMsg(nodes[recs[i].nodeId]))
  {
    ListingOrdered(nodes, nodes.Keys, NodeToMsg, NodeMsgId);
  }

  lemma EdgeRecordsOrdered(edges: map<EdgeId, Edge>)
    requires forall k :: k in edges ==> edges[k].id == k
    ensures var recs := Listing(edges, SortedIds(edges.Keys), EdgeToMsg);
      && |recs| == |edges|
      && (forall i, j :: 0 <= i < j < |recs| ==> recs[i].edgeId < recs[j].edgeId)
      && (forall i :: 0 <= i < |recs| ==> recs[i].edgeId in edges && recs[i] == EdgeToMsg(edges[recs[i].edgeId]))
  {
    ListingOrdered(edges, edges.Keys, EdgeToMsg, EdgeMsgId);
  }

  /**
   * Loading the published records reproduces the map: the records form a
   * message the load accepts, and decoding them gives back both maps.
   */
  lemma EncodeLoadRoundTrip(nodes: map<NodeId, Node>, edges: map<EdgeId, Edge>)
    requires KeyedById(nodes, edges) && EdgesClosed(nodes, edges)
    ensures var msg := EncodeMap(nodes, edges);
      && WellFormedMsg(msg)
      && DecodeNodes(msg.nodes) == nodes
      && DecodeEdges(msg.edges) == edges
  {
    DecodeEncodedNodes(nodes);
    DecodeEncodedEdges(edges);
    EncodedEdgesWellFormed(nodes, edges);
  }

  lemma DecodeEncodedNodes(nodes: map<NodeId, Node>)
    requires NodesKeyedById(nodes)
    ensures DecodeNodes(Listing(nodes, SortedIds(nodes.Keys), NodeToMsg)) == nodes
  {
    assert forall k :: k in nodes ==> NodeMsgId(NodeToMsg(nodes[k])) == k && NodeFromMsg(NodeToMsg(nodes[k])) == nodes[k];
    CollectListing(nodes, nodes.Keys, NodeToMsg, NodeMsgId, NodeFromMsg);
    WholeRestriction(nodes);
  }

  lemma DecodeEncodedEdges(edges: map<EdgeId, Edge>)
    requires forall k :: k in edges ==> edges[k].id == k
    ensures DecodeEdges(Listing(edges, SortedIds(edges.Keys), EdgeToMsg)) == edges
  {
    assert forall k :: k in edges ==> EdgeMsgId(EdgeToMsg(edges[k])) == k && EdgeFromMsg(EdgeToMsg(edges[k])) == edges[k];
    CollectListing(edges, edges.Keys, EdgeToMsg, EdgeMsgId, EdgeFromMsg);
    WholeRestriction(edges);
  }

  lemma WholeRestriction<V>(m: map<nat, V>)
    ensures (map k | k in m.Keys :: m[k]) == m
  {
  }

  lemma EncodedEdgesWellFormed(nodes: map<NodeId, Node>, edges: map<EdgeId, Edge>)
    requires KeyedById(nodes, edges) && EdgesClosed(nodes, edges)
    ensures WellFormedMsg(EncodeMap(nodes, edges))
  {
    var msg := EncodeMap(nodes, edges);
    EncodedNodeIds(nodes, edges);
    EncodedEdgeEnds(nodes, edges);
    assert forall r :: r in msg.edges ==> r.startNodeId in nodes && r.endNodeId in nodes;
  }

  lemma EncodedNodeIds(nodes: map<NodeId, Node>, edges: map<EdgeId, Edge>)
    requires NodesKeyedById(nodes)
    ensures NodeIdsOf(EncodeMap(nodes, edges)) == nodes.Keys
  {
    ListedNodeIds(nodes);
  }

  lemma ListedNodeIds(nodes: map<NodeId, Node>)
    requires NodesKeyedById(nodes)
    ensures (set r | r in Listing(nodes, SortedIds(nodes.Keys), NodeToMsg) :: NodeMsgId(r)) == nodes.Keys
  {
    DecodeEncodedNodes(nodes);
  }

  lemma EncodedEdgeEnds(nodes: map<NodeId, Node>, edges: map<EdgeId, Edge>)
    requires KeyedById(nodes, edges) && EdgesClosed(nodes, edges)
    ensures forall r :: r in EncodeMap(nodes, edges).edges ==> r.startNodeId in nodes && r.endNodeId in nodes
  {
    var recs := Listing(edges, SortedIds(edges.Keys), EdgeToMsg);
    assert recs == EncodeMap(nodes, edges).edges;
    ListingOrdered(edges, edges.Keys, EdgeToMsg, EdgeMsgId);
    EdgeRecordsCopyEntries(edges, recs);
  }

  lemma EdgeRecordsCopyEntries(edges: map<EdgeId, Edge>, recs: seq<EdgeMsg>)
    requires forall i :: 0 <= i < |recs| ==> EdgeMsgId(recs[i]) in edges.Keys && recs[i] == EdgeToMsg(edges[EdgeMsgId(recs[i])])
    ensures forall r :: r in recs ==> r.edgeId in edges && r == EdgeToMsg(edges[r.edgeId])
  {
    forall r | r in recs
      ensures r.edgeId in edges && r == EdgeToMsg(edges[r.edgeId])
    {
      var i :| 0 <= i < |recs| && recs[i] == r;
    }
  }

  /** Every decoded node is stored under its own id. */
  lemma {:induction false} DecodeNodesKeyed(recs: seq<NodeMsg>)
    ensures NodesKeyedById(DecodeNodes(recs))
  {
    if recs != [] {
      var front := recs[..|recs| - 1];
      DecodeNodesKeyed(front);
      assert recs == front + [recs[|recs| - 1]];
      CollectExtend(front, recs[|recs| - 1], NodeMsgId, NodeFromMsg);
    }
  }

  /** Every decoded edge is stored under its own id, and joins two ids some record named. */
  lemma {:induction false} DecodeEdgesKeyed(recs: seq<EdgeMsg>, ids: set<NodeId>)
    requires forall r :: r in recs ==> r.startNodeId in ids && r.endNodeId in ids
    ensures var edges := DecodeEdges(recs);
      forall k :: k in edges ==> edges[k].id == k && edges[k].startId in ids && edges[k].endId in ids
  {
    if recs != [] {
      var front := recs[..|recs| - 1];
      var last := recs[|recs| - 1];
      assert forall r :: r in front ==> r in recs;
      assert last in recs;
      DecodeEdgesKeyed(front, ids);
      assert recs == front + [last];
      CollectExtend(front, last, EdgeMsgId, EdgeFromMsg);
      var before := DecodeEdges(front);
      var e := EdgeFromMsg(last);
      assert DecodeEdges(recs) == before[e.id := e];
      assert e.startId in ids && e.endId in ids;
    }
  }

  /**
   * Loading a message the load accepts yields a map whose entries are stored
   * under their own ids and whose edges join loaded nodes.
   */
  lemma LoadedMapValid(msg: MapMsg)
    requires WellFormedMsg(msg)
    ensures KeyedById(DecodeNodes(msg.nodes), DecodeEdges(msg.edges))
    ensures EdgesClosed(DecodeNodes(msg.nodes), DecodeEdges(msg.edges))
  {
    DecodeNodesKeyed(msg.nodes);
    DecodeEdgesKeyed(msg.edges, NodeIdsOf(msg));
    assert NodeIdsOf(msg) == DecodeNodes(msg.nodes).Keys;
  }
}
