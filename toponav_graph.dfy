/**
 * Specification functions over the two id-keyed maps of the topological map:
 * the graph invariants, the edges a node deletion removes, and the edges
 * checkCreateEdges adds for a newly created node.
 */
module TopoNavGraph {
  import opened TopoNavTypes
  import opened OrderedIds

  /** No edge refers to a node that is not in the node map. */
  ghost predicate EdgesClosed(nodes: map<NodeId, Node>, edges: map<EdgeId, Edge>)
  {
    forall e :: e in edges ==> edges[e].startId in nodes && edges[e].endId in nodes
  }

  ghost predicate NodesKeyedById(nodes: map<NodeId, Node>)
  {
    forall k :: k in nodes ==> nodes[k].id == k
  }

  /** Every entry is stored under its own id. */
  ghost predicate KeyedById(nodes: map<NodeId, Node>, edges: map<EdgeId, Edge>)
  {
    && NodesKeyedById(nodes)
    && (forall k :: k in edges ==> edges[k].id == k)
  }

  /** The edges connected to node n. */
  ghost function EdgesTouching(edges: map<EdgeId, Edge>, n: NodeId): map<EdgeId, Edge>
  {
    map e | e in edges && edges[e].Touches(n) :: edges[e]
  }

  /** The edges left once every edge connected to n is deleted. */
  ghost function EdgesAvoiding(edges: map<EdgeId, Edge>, n: NodeId): map<EdgeId, Edge>
  {
    map e | e in edges && !edges[e].Touches(n) :: edges[e]
  }

  /**
   * Deleting node n after the edges connected to it keeps every edge
   * closed, leaves no edge that refers to n, and removes exactly the
   * connected edges: every other edge is kept unchanged.
   */
  lemma CascadeDeleteKeepsClosed(nodes: map<NodeId, Node>, edges: map<EdgeId, Edge>, n: NodeId)
    requires EdgesClosed(nodes, edges)
    ensures EdgesClosed(nodes - {n}, EdgesAvoiding(edges, n))
    ensures forall e :: e in EdgesAvoiding(edges, n) ==> !EdgesAvoiding(edges, n)[e].Touches(n)
    ensures EdgesAvoiding(edges, n).Keys == edges.Keys - EdgesTouching(edges, n).Keys
    ensures forall e :: e in EdgesAvoiding(edges, n) ==> EdgesAvoiding(edges, n)[e] == edges[e]
  {
    var kept := EdgesAvoiding(edges, n);
    forall e | e in kept
      ensures kept[e].startId in nodes - {n} && kept[e].endId in nodes - {n}
    {
      assert kept[e] == edges[e];
    }
  }

  /** Node k passes the id and distance tests of checkCreateEdges, against new node n. */
  ghost predicate WithinReach(nodes: map<NodeId, Node>, n: Node, env: Collaborators, k: NodeId)
    requires k in nodes
  {
    && nodes[k].id != n.id
    && !(env.dist(n.pose, nodes[k].pose) > MaxDistBetweenNodes)
  }

  /** The loop reaches the navigability check for node k (edgeExists said no). */
  ghost predicate AsksNavigability(nodes: map<NodeId, Node>, n: Node, env: Collaborators, k: NodeId)
    requires k in nodes
  {
    WithinReach(nodes, n, env, k) && !env.edgeExists(n, nodes[k])
  }

  /** Node k receives an edge from new node n. */
  ghost predicate Qualifies(nodes: map<NodeId, Node>, n: Node, env: Collaborators, k: NodeId)
    requires k in nodes
  {
    AsksNavigability(nodes, n, env, k) && env.navigable(n.pose, nodes[k].pose)
  }

  /** Whether checkCreateEdges consults directNavigable at all during the call. */
  ghost predicate NavigabilityAsked(nodes: map<NodeId, Node>, n: Node, env: Collaborators)
  {
    exists k :: k in nodes && AsksNavigability(nodes, n, env, k)
  }

  /** The ids among `ids` that qualify, in the order given. */
  ghost function QualifyingAmong(nodes: map<NodeId, Node>, n: Node, env: Collaborators, ids: seq<NodeId>): (r: seq<NodeId>)
    requires forall k :: k in ids ==> k in nodes
    ensures forall k :: k in r <==> k in ids && Qualifies(nodes, n, env, k)
  {
    if ids == [] then []
    else
      var last := ids[|ids| - 1];
      var front := ids[..|ids| - 1];
      assert forall k :: k in ids <==> k in front || k == last;
      QualifyingAmong(nodes, n, env, front) + (if Qualifies(nodes, n, env, last) then [last] else [])
  }

  /** Keeping some ids of an ascending sequence, in order, keeps it ascending. */
  lemma {:induction false} QualifyingAmongAscending(nodes: map<NodeId, Node>, n: Node, env: Collaborators, ids: seq<NodeId>)
    requires forall k :: k in ids ==> k in nodes
    requires Ascending(ids)
    ensures Ascending(QualifyingAmong(nodes, n, env, ids))
  {
    if ids != [] {
      var last := ids[|ids| - 1];
      var front := ids[..|ids| - 1];
      assert forall k :: k in front ==> k in ids;
      AscendingFront(ids, front, last);
      QualifyingAmongAscending(nodes, n, env, front);
      var r := QualifyingAmong(nodes, n, env, front);
      if Qualifies(nodes, n, env, last) {
        assert forall i :: 0 <= i < |r| ==> r[i] in front;
        AscendingAppend(r, last);
      }
    }
  }

  /** Dropping the last id of an ascending sequence leaves an ascending sequence of smaller ids. */
  lemma AscendingFront(ids: seq<NodeId>, front: seq<NodeId>, last: NodeId)
    requires ids != [] && Ascending(ids)
    requires front == ids[..|ids| - 1] && last == ids[|ids| - 1]
    ensures Ascending(front)
    ensures forall k :: k in front ==> k < last
  {
  }

  /** An id above every element extends an ascending sequence. */
  lemma AscendingAppend(r: seq<NodeId>, x: NodeId)
    requires Ascending(r) && forall i :: 0 <= i < |r| ==> r[i] < x
    ensures Ascending(r + [x])
  {
  }

  /** Visiting one more id extends the qualifying ids by it exactly when it qualifies. */
  lemma QualifyingAmongExtend(nodes: map<NodeId, Node>, n: Node, env: Collaborators, ids: seq<NodeId>, k: NodeId)
    requires forall j :: j in ids ==> j in nodes
    requires k in nodes
    ensures QualifyingAmong(nodes, n, env, ids + [k])
         == QualifyingAmong(nodes, n, env, ids) + (if Qualifies(nodes, n, env, k) then [k] else [])
  {
    assert (ids + [k])[..|ids|] == ids;
  }

  /**
   * One turn of checkCreateEdges's walk: visiting node k after the ids
   * `seen` adds the edge to k exactly when k qualifies, numbered after the
   * edges already added.
   */
  lemma CreateEdgesStep(nodes: map<NodeId, Node>, n: Node, env: Collaborators, seen: seq<NodeId>,
                        targets: seq<NodeId>, k: NodeId, linked: bool, base: map<EdgeId, Edge>,
                        firstId: EdgeId, now: Time, x: EdgeId, before: map<EdgeId, Edge>, after: map<EdgeId, Edge>)
    requires (forall j :: j in seen ==> j in nodes) && k in nodes
    requires targets == QualifyingAmong(nodes, n, env, seen)
    requires before == base + NewEdges(nodes, n, env, targets, firstId, now)
    requires linked == Qualifies(nodes, n, env, k)
    requires x == firstId + |targets|
    requires linked ==> after == before[x := Edge(x, now, env.edgeCost(n, nodes[k]), n.id, k)]
    requires !linked ==> after == before
    ensures linked ==>
      && targets + [k] == QualifyingAmong(nodes, n, env, seen + [k])
      && after == base + NewEdges(nodes, n, env, targets + [k], firstId, now)
    ensures !linked ==>
      && targets == QualifyingAmong(nodes, n, env, seen + [k])
      && after == base + NewEdges(nodes, n, env, targets, firstId, now)
  {
    QualifyingAmongExtend(nodes, n, env, seen, k);
    if linked {
      assert forall j :: j in targets ==> j in seen;
      AppendEdge(nodes, n, env, targets, k, base, firstId, now, x, before, after);
    }
  }

  /** Adding the edge to k under the next id extends the added edges by it. */
  lemma AppendEdge(nodes: map<NodeId, Node>, n: Node, env: Collaborators, targets: seq<NodeId>, k: NodeId,
                   base: map<EdgeId, Edge>, firstId: EdgeId, now: Time, x: EdgeId, before: map<EdgeId, Edge>, after: map<EdgeId, Edge>)
    requires (forall j :: j in targets ==> j in nodes) && k in nodes
    requires before == base + NewEdges(nodes, n, env, targets, firstId, now)
    requires x == firstId + |targets|
    requires after == before[x := Edge(x, now, env.edgeCost(n, nodes[k]), n.id, k)]
    ensures after == base + NewEdges(nodes, n, env, targets + [k], firstId, now)
  {
    var e := Edge(x, now, env.edgeCost(n, nodes[k]), n.id, k);
    var m0 := NewEdges(nodes, n, env, targets, firstId, now);
    calc {
      after;
      (base + m0)[x := e];
      { UnionUpdate(base, m0, x, firstId + |targets|, e, Edge(firstId + |targets|, now, env.edgeCost(n, nodes[k]), n.id, k)); }
      base + m0[firstId + |targets| := Edge(firstId + |targets|, now, env.edgeCost(n, nodes[k]), n.id, k)];
      { NewEdgesExtend(nodes, n, env, targets, k, firstId, now); }
      base + NewEdges(nodes, n, env, targets + [k], firstId, now);
    }
  }

  lemma UnionUpdate(a: map<EdgeId, Edge>, b: map<EdgeId, Edge>, x: EdgeId, y: EdgeId, v: Edge, w: Edge)
    requires x == y && v == w
    ensures (a + b)[x := v] == a + b[y := w]
  {
  }

  /**
   * Where checkCreateEdges's walk stands once the ids `seen` are behind it:
   * the edges to the qualifying ones among them were added to `base` under
   * consecutive ids from firstId, the next edge id follows them, and
   * `asked` records whether directNavigable was consulted.
   */
  ghost predicate Linked(nodes: map<NodeId, Node>, n: Node, env: Collaborators, now: Time, seen: seq<NodeId>,
                         targets: seq<NodeId>, asked: bool, base: map<EdgeId, Edge>, firstId: EdgeId,
                         edges: map<EdgeId, Edge>, nextEdgeId: EdgeId)
  {
    && (forall k :: k in seen ==> k in nodes)
    && targets == QualifyingAmong(nodes, n, env, seen)
    && edges == base + NewEdges(nodes, n, env, targets, firstId, now)
    && nextEdgeId == firstId + |targets|
    && (asked <==> exists k :: k in seen && k in nodes && AsksNavigability(nodes, n, env, k))
  }

  /** Before the walk nothing is visited and nothing added. */
  lemma LinkedStart(nodes: map<NodeId, Node>, n: Node, env: Collaborators, now: Time,
                    edges: map<EdgeId, Edge>, nextEdgeId: EdgeId)
    ensures Linked(nodes, n, env, now, [], [], false, edges, nextEdgeId, edges, nextEdgeId)
  {
    assert edges == edges + map[];
  }

  /** One turn of the walk, for node ids[i] after the ids before it. */
  lemma LinkedStep(nodes: map<NodeId, Node>, n: Node, env: Collaborators, now: Time, ids: seq<NodeId>, i: nat,
                   targets: seq<NodeId>, asked: bool, base: map<EdgeId, Edge>, firstId: EdgeId,
                   linked: bool, askedHere: bool,
                   before: map<EdgeId, Edge>, nextBefore: EdgeId, after: map<EdgeId, Edge>, nextAfter: EdgeId)
    requires i < |ids| && ids[i] in nodes
    requires Linked(nodes, n, env, now, ids[..i], targets, asked, base, firstId, before, nextBefore)
    requires askedHere == AsksNavigability(nodes, n, env, ids[i])
    requires linked == Qualifies(nodes, n, env, ids[i])
    requires linked ==> (nextAfter == nextBefore + 1 &&
      after == before[nextBefore := Edge(nextBefore, now, env.edgeCost(n, nodes[ids[i]]), n.id, ids[i])])
    requires !linked ==> nextAfter == nextBefore && after == before
    ensures Linked(nodes, n, env, now, ids[..i + 1], if linked then targets + [ids[i]] else targets,
                   asked || askedHere, base, firstId, after, nextAfter)
  {
    LinkedExtend(nodes, n, env, now, ids[..i], targets, asked, base, firstId, ids[i], linked, askedHere,
                 before, nextBefore, after, nextAfter);
    PrefixNext(ids, i);
  }

  lemma PrefixNext(ids: seq<NodeId>, i: nat)
    requires i < |ids|
    ensures ids[..i + 1] == ids[..i] + [ids[i]]
  {
  }

  lemma LinkedExtend(nodes: map<NodeId, Node>, n: Node, env: Collaborators, now: Time, seen: seq<NodeId>,
                     targets: seq<NodeId>, asked: bool, base: map<EdgeId, Edge>, firstId: EdgeId,
                     k: NodeId, linked: bool, askedHere: bool,
                     before: map<EdgeId, Edge>, nextBefore: EdgeId, after: map<EdgeId, Edge>, nextAfter: EdgeId)
    requires k in nodes
    requires Linked(nodes, n, env, now, seen, targets, asked, base, firstId, before, nextBefore)
    requires askedHere == AsksNavigability(nodes, n, env, k)
    requires linked == Qualifies(nodes, n, env, k)
    requires linked ==> (nextAfter == nextBefore + 1 &&
      after == before[nextBefore := Edge(nextBefore, now, env.edgeCost(n, nodes[k]), n.id, k)])
    requires !linked ==> nextAfter == nextBefore && after == before
    ensures Linked(nodes, n, env, now, seen + [k], if linked then targets + [k] else targets,
                   asked || askedHere, base, firstId, after, nextAfter)
  {
    CreateEdgesStep(nodes, n, env, seen, targets, k, linked, base, firstId, now, nextBefore, before, after);
    AskedStep(nodes, n, env, seen, k, asked, askedHere);
  }

  /** The same turn, for whether directNavigable has been consulted so far. */
  lemma AskedStep(nodes: map<NodeId, Node>, n: Node, env: Collaborators, seen: seq<NodeId>,
                  k: NodeId, asked: bool, askedHere: bool)
    requires k in nodes
    requires asked <==> exists j :: j in seen && j in nodes && AsksNavigability(nodes, n, env, j)
    requires askedHere == AsksNavigability(nodes, n, env, k)
    ensures forall j :: j in seen + [k] <==> j in seen || j == k
    ensures (asked || askedHere) <==> exists j :: j in seen + [k] && j in nodes && AsksNavigability(nodes, n, env, j)
  {
    assert forall j :: j in seen + [k] <==> j in seen || j == k;
  }

  /** Once the walk has visited every node in ascending order, it has added exactly the edges to EdgeTargets. */
  lemma LinkedAll(nodes: map<NodeId, Node>, n: Node, env: Collaborators, now: Time, ids: seq<NodeId>,
                  targets: seq<NodeId>, asked: bool, base: map<EdgeId, Edge>, firstId: EdgeId,
                  edges: map<EdgeId, Edge>, nextEdgeId: EdgeId)
    requires ids == SortedIds(nodes.Keys)
    requires Linked(nodes, n, env, now, ids[..|ids|], targets, asked, base, firstId, edges, nextEdgeId)
    ensures targets == EdgeTargets(nodes, n, env)
    ensures edges == base + NewEdges(nodes, n, env, EdgeTargets(nodes, n, env), firstId, now)
    ensures nextEdgeId == firstId + |EdgeTargets(nodes, n, env)|
    ensures asked == NavigabilityAsked(nodes, n, env)
  {
    assert ids[..|ids|] == ids;
  }

  /** The nodes checkCreateEdges links new node n to, in the ascending order it visits them. */
  ghost function EdgeTargets(nodes: map<NodeId, Node>, n: Node, env: Collaborators): (r: seq<NodeId>)
    ensures forall k :: k in r <==> k in nodes && Qualifies(nodes, n, env, k)
  {
    QualifyingAmong(nodes, n, env, SortedIds(nodes.Keys))
  }

  /**
   * The edges created from n to `targets`, numbered consecutively from
   * `firstId`, each with the cost the edge constructor assigns to its end nodes.
   */
  ghost function NewEdges(nodes: map<NodeId, Node>, n: Node, env: Collaborators, targets: seq<NodeId>,
                          firstId: EdgeId, now: Time): (r: map<EdgeId, Edge>)
    requires forall k :: k in targets ==> k in nodes
    ensures forall e :: e in r <==> firstId <= e < firstId + |targets|
    ensures forall i :: 0 <= i < |targets| ==>
      r[firstId + i] == Edge(firstId + i, now, env.edgeCost(n, nodes[targets[i]]), n.id, targets[i])
  {
    if targets == [] then map[]
    else
      var front := targets[..|targets| - 1];
      var k := targets[|targets| - 1];
      assert forall i :: 0 <= i < |front| ==> front[i] == targets[i];
      assert forall t :: t in front ==> t in targets;
      NewEdges(nodes, n, env, front, firstId, now)[firstId + |front| :=
        Edge(firstId + |front|, now, env.edgeCost(n, nodes[k]), n.id, k)]
  }

  lemma NewEdgesExtend(nodes: map<NodeId, Node>, n: Node, env: Collaborators, targets: seq<NodeId>,
                       k: NodeId, firstId: EdgeId, now: Time)
    requires forall t :: t in targets ==> t in nodes
    requires k in nodes
    ensures NewEdges(nodes, n, env, targets + [k], firstId, now)
         == NewEdges(nodes, n, env, targets, firstId, now)[firstId + |targets| :=
              Edge(firstId + |targets|, now, env.edgeCost(n, nodes[k]), n.id, k)]
  {
    assert (targets + [k])[..|targets|] == targets;
  }

  /**
   * The edges checkCreateEdges adds: each starts at the new node n, never
   * loops back to n, ends at a node within MaxDistBetweenNodes for which
   * edgeExists said no and the navigability verdict said yes; and every such
   * node receives exactly one of them.
   */
  lemma NewEdgesAreExactlyTheQualifying(nodes: map<NodeId, Node>, n: Node, env: Collaborators,
                                        firstId: EdgeId, now: Time)
    requires NodesKeyedById(nodes)
    ensures var added := NewEdges(nodes, n, env, EdgeTargets(nodes, n, env), firstId, now);
      && (forall e :: e in added ==>
            && added[e].id == e
            && added[e].startId == n.id
            && added[e].endId != n.id
            && added[e].endId in nodes
            && !(env.dist(n.pose, nodes[added[e].endId].pose) > MaxDistBetweenNodes)
            && !env.edgeExists(n, nodes[added[e].endId])
            && env.navigable(n.pose, nodes[added[e].endId].pose))
      && (forall k :: k in nodes && Qualifies(nodes, n, env, k) ==> exists e :: e in added && added[e].endId == k)
      && (forall e1, e2 :: e1 in added && e2 in added && added[e1].endId == added[e2].endId ==> e1 == e2)
  {
    var ts := EdgeTargets(nodes, n, env);
    NewEdgesQualify(nodes, n, env, ts, firstId, now);
    NewEdgesCover(nodes, n, env, ts, firstId, now);
    TargetsAscending(nodes, n, env);
    NewEdgesOnePerTarget(nodes, n, env, ts, firstId, now);
  }

  /** The walk meets the qualifying nodes in ascending id order, so each at most once. */
  lemma TargetsAscending(nodes: map<NodeId, Node>, n: Node, env: Collaborators)
    ensures Ascending(EdgeTargets(nodes, n, env))
  {
    SortedIdsAscending(nodes.Keys);
    QualifyingAmongAscending(nodes, n, env, SortedIds(nodes.Keys));
  }

  lemma NewEdgesQualify(nodes: map<NodeId, Node>, n: Node, env: Collaborators, ts: seq<NodeId>,
                        firstId: EdgeId, now: Time)
    requires NodesKeyedById(nodes)
    requires forall k :: k in ts ==> k in nodes && Qualifies(nodes, n, env, k)
    ensures var added := NewEdges(nodes, n, env, ts, firstId, now);
      forall e :: e in added ==>
        && added[e].id == e && added[e].startId == n.id
        && added[e].endId in nodes && added[e].endId != n.id
        && Qualifies(nodes, n, env, added[e].endId)
  {
    var added := NewEdges(nodes, n, env, ts, firstId, now);
    forall e | e in added
      ensures added[e].id == e && added[e].startId == n.id
      ensures added[e].endId in nodes && added[e].endId != n.id && Qualifies(nodes, n, env, added[e].endId)
    {
      var i := e - firstId;
      assert ts[i] in ts;
      assert added[e].endId == ts[i];
    }
  }

  lemma NewEdgesCover(nodes: map<NodeId, Node>, n: Node, env: Collaborators, ts: seq<NodeId>,
                      firstId: EdgeId, now: Time)
    requires forall k :: k in ts <==> k in nodes && Qualifies(nodes, n, env, k)
    ensures var added := NewEdges(nodes, n, env, ts, firstId, now);
      forall k :: k in nodes && Qualifies(nodes, n, env, k) ==> exists e :: e in added && added[e].endId == k
  {
    var added := NewEdges(nodes, n, env, ts, firstId, now);
    forall k | k in nodes && Qualifies(nodes, n, env, k)
      ensures exists e :: e in added && added[e].endId == k
    {
      assert k in ts;
      var i :| 0 <= i < |ts| && ts[i] == k;
      var e: EdgeId := firstId + i;
      assert e in added && added[e].endId == k;
      assert exists e: EdgeId :: e in added && added[e].endId == k;
    }
    assert added == NewEdges(nodes, n, env, ts, firstId, now);
  }

  lemma NewEdgesOnePerTarget(nodes: map<NodeId, Node>, n: Node, env: Collaborators, ts: seq<NodeId>,
                             firstId: EdgeId, now: Time)
    requires forall k :: k in ts ==> k in nodes
    requires Ascending(ts)
    ensures var added := NewEdges(nodes, n, env, ts, firstId, now);
      forall e1, e2 :: e1 in added && e2 in added && added[e1].endId == added[e2].endId ==> e1 == e2
  {
    var added := NewEdges(nodes, n, env, ts, firstId, now);
    forall e1, e2 | e1 in added && e2 in added && added[e1].endId == added[e2].endId
      ensures e1 == e2
    {
      var i1, i2 := e1 - firstId, e2 - firstId;
      assert added[e1].endId == ts[i1] && added[e2].endId == ts[i2];
    }
  }

  /** Nothing qualifies among `ids` exactly when no id in it qualifies. */
  lemma {:induction false} NoneQualifyAmong(nodes: map<NodeId, Node>, n: Node, env: Collaborators, ids: seq<NodeId>)
    requires forall k :: k in ids ==> k in nodes
    ensures QualifyingAmong(nodes, n, env, ids) == [] <==> forall k :: k in ids ==> !Qualifies(nodes, n, env, k)
  {
    if ids != [] {
      var front := ids[..|ids| - 1];
      assert forall k :: k in front ==> k in ids;
      NoneQualifyAmong(nodes, n, env, front);
      assert forall k :: k in ids <==> k in front || k == ids[|ids| - 1];
    }
  }

  /** checkCreateEdges links the new node to something exactly when some node qualifies. */
  lemma TargetsEmptyIffNoneQualifies(nodes: map<NodeId, Node>, n: Node, env: Collaborators)
    ensures EdgeTargets(nodes, n, env) == [] <==> forall k :: k in nodes ==> !Qualifies(nodes, n, env, k)
  {
    NoneQualifyAmong(nodes, n, env, SortedIds(nodes.Keys));
  }

  /** With fewer than two nodes, the only node is n itself: nothing qualifies and nothing is asked. */
  lemma FewerThanTwoNodesLinkNothing(nodes: map<NodeId, Node>, n: Node, env: Collaborators)
    requires n.id in nodes && nodes[n.id].id == n.id
    requires |nodes| < 2
    ensures EdgeTargets(nodes, n, env) == []
    ensures !NavigabilityAsked(nodes, n, env)
  {
    OnlyKey(nodes, n.id);
    forall k | k in nodes
      ensures !AsksNavigability(nodes, n, env, k)
    {
      assert k == n.id;
    }
    TargetsEmptyIffNoneQualifies(nodes, n, env);
  }

  /**
   * The early return of checkCreateEdges: with fewer than two nodes the walk
   * over the whole map would have visited only n, linking and asking nothing.
   */
  lemma FewerThanTwoNodesLinked(nodes: map<NodeId, Node>, n: Node, env: Collaborators, now: Time,
                                edges: map<EdgeId, Edge>, nextEdgeId: EdgeId)
    requires n.id in nodes && nodes[n.id].id == n.id
    requires |nodes| < 2
    ensures var ids := SortedIds(nodes.Keys);
      Linked(nodes, n, env, now, ids[..|ids|], [], false, edges, nextEdgeId, edges, nextEdgeId)
  {
    var ids := SortedIds(nodes.Keys);
    assert ids[..|ids|] == ids;
    OnlyKey(nodes, n.id);
    NoneQualifyAmong(nodes, n, env, ids);
    assert NewEdges(nodes, n, env, [], nextEdgeId, now) == map[];
    assert edges == edges + map[];
  }

  /** A map with fewer than two entries that holds `id` holds nothing else. */
  lemma OnlyKey(nodes: map<NodeId, Node>, id: NodeId)
    requires id in nodes && |nodes| < 2
    ensures nodes.Keys == {id}
  {
    forall k | k in nodes ensures k == id {
      if k != id {
        SubsetCard({k, id}, nodes.Keys);
      }
    }
  }

  /** The first node of an empty map is linked to nothing and consults nothing. */
  lemma FirstNodeLinksNothing(nodes: map<NodeId, Node>, n: Node, env: Collaborators, now: Time,
                              edges: map<EdgeId, Edge>, nextEdgeId: EdgeId)
    requires nodes == map[n.id := n]
    requires edges == map[] + NewEdges(nodes, n, env, EdgeTargets(nodes, n, env), 0, now)
    requires nextEdgeId == 0 + |EdgeTargets(nodes, n, env)|
    ensures edges == map[] && nextEdgeId == 0 && !NavigabilityAsked(nodes, n, env)
  {
    FewerThanTwoNodesLinkNothing(nodes, n, env);
    assert NewEdges(nodes, n, env, [], 0, now) == map[];
  }

  lemma SubsetCard(a: set<NodeId>, b: set<NodeId>)
    requires a <= b
    ensures |a| <= |b|
  {
    assert b == a + (b - a);
  }

  /**
   * With the source's placeholder directNavigable, whose verdict is always
   * false, checkCreateEdges never links anything.
   */
  lemma StubNavigabilityLinksNothing(nodes: map<NodeId, Node>, n: Node, env: Collaborators)
    requires forall a: Pose, b: Pose :: !env.navigable(a, b)
    ensures EdgeTargets(nodes, n, env) == []
  {
    TargetsEmptyIffNoneQualifies(nodes, n, env);
  }
}
