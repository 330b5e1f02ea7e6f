/**
 * The shortest-path engine: Dijkstra's search from a source with early exit at the
 * target, over a fixed adjacency table, followed by the walk back along predecessors.
 * `DijkstraRouter.shortestPath` is one Java method with four loops; here its loops and loop bodies are
 * the methods `InitialDistances`, `Search`, `Poll`, `Expand`, `RelaxEdge` and `Reconstruct`.
 */
module DijkstraRouter {
  import opened OsmGraph
  import opened Walks
  import opened DijkstraSearch

  class DijkstraRouter {
    const adjacency: map<Id, seq<Edge>>
    const nodes: map<Id, Node>

    constructor(adjacency: map<Id, seq<Edge>>, nodes: map<Id, Node>)
      ensures this.adjacency == adjacency && this.nodes == nodes
    {
      this.adjacency := adjacency;
      this.nodes := nodes;
    }

    /**
     * The ids of a lightest route from `sourceId` to `targetId`, or the empty list.
     * `pushes` counts the entries ever added to the queue.
     */
    method ShortestPath(sourceId: Id, targetId: Id) returns (path: seq<Id>, ghost pushes: nat)
      ensures sourceId == targetId ==> path == [sourceId]
      ensures sourceId != targetId && (sourceId !in adjacency || targetId !in adjacency) ==> path == []
      ensures sourceId in adjacency && targetId in adjacency ==>
                (path == [] <==> !Reachable(adjacency, sourceId, targetId))
      ensures path != [] ==>
                && path[0] == sourceId && path[|path| - 1] == targetId
                && IsRoute(adjacency, path)
                && IsShortestRoute(adjacency, sourceId, targetId, path)
      ensures pushes <= 1 + TotalOutDegree(adjacency)
    {
      pushes := 0;
      if sourceId == targetId {
        assert IsWalk(adjacency, sourceId, []) && Nodes(sourceId, []) == [sourceId];
        forall other | IsWalk(adjacency, sourceId, other) && End(sourceId, other) == targetId
          ensures Cost([]) <= Cost(other)
        {
          CostNonNegative(other);
        }
        return [sourceId], pushes;
      }
      if sourceId !in adjacency || targetId !in adjacency {
        return [], pushes;
      }
      var dist := InitialDistances(sourceId);
      var prev, pq, visited;
      ghost var via, rank, order;
      dist, prev, pq, visited, via, rank, order, pushes := Search(sourceId, targetId, dist);
      if targetId !in prev {
        return [], pushes;
      }
      path := Reconstruct(sourceId, targetId, dist, prev, pq, visited, via, rank, order);
    }

    /** Every node with a list starts at infinity, the source at 0. */
    method InitialDistances(sourceId: Id) returns (dist: map<Id, Dist>)
      ensures DistOf(dist, sourceId) == Finite(0.0)
      ensures forall v :: v != sourceId ==> DistOf(dist, v) == Infinity
      ensures dist.Keys == adjacency.Keys + {sourceId}
    {
      dist := map[];
      var keys := adjacency.Keys;
      while keys != {}
        invariant keys <= adjacency.Keys && dist.Keys == adjacency.Keys - keys
        invariant forall v :: v in dist ==> dist[v] == Infinity
        decreases keys
      {
        var id :| id in keys;
        dist := dist[id := Infinity];
        keys := keys - {id};
      }
      dist := dist[sourceId := Finite(0.0)];
    }

    /** The search loop: poll entries until the queue is empty or the target is settled. */
    method Search(sourceId: Id, targetId: Id, dist0: map<Id, Dist>)
      returns (dist: map<Id, Dist>, prev: map<Id, Id>, pq: multiset<Entry>, visited: set<Id>,
               ghost via: map<Id, Edge>, ghost rank: map<Id, nat>, ghost order: seq<Id>, ghost pushes: nat)
      requires DistOf(dist0, sourceId) == Finite(0.0)
      requires forall v :: v != sourceId ==> DistOf(dist0, v) == Infinity
      ensures Core(adjacency, sourceId, dist, prev, via, pq, visited, rank, order)
      ensures targetId !in visited ==> !Reachable(adjacency, sourceId, targetId) && targetId !in prev
      ensures pushes <= 1 + TotalOutDegree(adjacency)
      ensures NoLonger(dist0, dist)
    {
      dist, prev, pq, visited := dist0, map[], multiset{Entry(sourceId, 0.0)}, {};
      via, rank, order := map[], map[], [];
      pushes := 1;
      Initial(adjacency, sourceId, dist);
      while pq != multiset{}
        invariant Invariant(adjacency, sourceId, dist, prev, via, pq, visited, rank, order)
        invariant targetId !in visited
        invariant pushes <= 1 + DegreeSum(adjacency, order) <= 1 + TotalOutDegree(adjacency)
        invariant NoLonger(dist0, dist)
        decreases |pq| + (1 + TotalOutDegree(adjacency) - pushes)
      {
        ghost var before := dist;
        var found;
        found, dist, prev, pq, visited, via, rank, order, pushes :=
          Poll(sourceId, targetId, dist, prev, pq, visited, via, rank, order, pushes);
        NoLongerTransitive(dist0, before, dist);
        if found {
          return;
        }
      }
      Exhausted(adjacency, sourceId, dist, prev, via, visited, rank, order, targetId);
    }

    /**
     * One pass of the search loop: poll a minimal entry, skip it if its node is
     * settled, settle it, report the target, relax the node's edges otherwise.
     */
    method Poll(ghost sourceId: Id, targetId: Id, dist0: map<Id, Dist>, prev0: map<Id, Id>,
                pq0: multiset<Entry>, visited0: set<Id>, ghost via0: map<Id, Edge>,
                ghost rank0: map<Id, nat>, ghost order0: seq<Id>, ghost pushes0: nat)
      returns (found: bool, dist: map<Id, Dist>, prev: map<Id, Id>, pq: multiset<Entry>, visited: set<Id>,
               ghost via: map<Id, Edge>, ghost rank: map<Id, nat>, ghost order: seq<Id>, ghost pushes: nat)
      requires pq0 != multiset{}
      requires Invariant(adjacency, sourceId, dist0, prev0, via0, pq0, visited0, rank0, order0)
      requires targetId !in visited0
      requires pushes0 <= 1 + DegreeSum(adjacency, order0)
      ensures found ==> targetId in visited && Core(adjacency, sourceId, dist, prev, via, pq, visited, rank, order)
      ensures !found ==> targetId !in visited && Invariant(adjacency, sourceId, dist, prev, via, pq, visited, rank, order)
      ensures pushes <= 1 + DegreeSum(adjacency, order) <= 1 + TotalOutDegree(adjacency)
      ensures |pq| + (1 + TotalOutDegree(adjacency) - pushes) < |pq0| + (1 + TotalOutDegree(adjacency) - pushes0)
      ensures NoLonger(dist0, dist)
    {
      found, dist, prev, pq, visited, via, rank, order, pushes :=
        false, dist0, prev0, pq0, visited0, via0, rank0, order0, pushes0;
      DistinctDegreeBound(adjacency, order, adjacency.Keys);
      MinExists(pq);
      var cur :| IsMin(pq, cur);
      var u, du := cur.id, cur.dist;
      if u in visited {
        PopStale(adjacency, sourceId, dist, prev, via, pq, visited, rank, order, cur);
        pq := pq - multiset{cur};
        return;
      }
      PopFresh(adjacency, sourceId, dist, prev, via, pq, visited, rank, order, cur);
      pq := pq - multiset{cur};
      visited := visited + {u};
      rank := rank[u := |order|];
      order := order + [u];
      assert order[..|order| - 1] == order0;
      assert DegreeSum(adjacency, order) == DegreeSum(adjacency, order0) + Degree(adjacency, u);
      DistinctDegreeBound(adjacency, order, adjacency.Keys);
      if u == targetId {
        found := true;
        return;
      }
      dist, prev, pq, via, pushes := Expand(sourceId, u, du, dist, prev, pq, visited, via, rank, order, pushes);
    }

    /** The relaxation loop over the edges of `u`, settled at distance `du`; nothing to do when `u` has no list. */
    method Expand(ghost sourceId: Id, u: Id, du: real, dist0: map<Id, Dist>, prev0: map<Id, Id>,
                  pq0: multiset<Entry>, ghost visited: set<Id>, ghost via0: map<Id, Edge>,
                  ghost rank: map<Id, nat>, ghost order: seq<Id>, ghost pushes0: nat)
      returns (dist: map<Id, Dist>, prev: map<Id, Id>, pq: multiset<Entry>, ghost via: map<Id, Edge>,
               ghost pushes: nat)
      requires Expanding(adjacency, sourceId, dist0, prev0, via0, pq0, visited, rank, order, u, du, 0)
      ensures Invariant(adjacency, sourceId, dist, prev, via, pq, visited, rank, order)
      ensures pushes0 <= pushes <= pushes0 + Degree(adjacency, u)
      ensures |pq| == |pq0| + (pushes - pushes0)
      ensures NoLonger(dist0, dist)
    {
      dist, prev, pq, via, pushes := dist0, prev0, pq0, via0, pushes0;
      if u !in adjacency {
        ExpandDone(adjacency, sourceId, dist, prev, via, pq, visited, rank, order, u, du, 0);
        return;
      }
      var edges := adjacency[u];
      for j := 0 to |edges|
        invariant Expanding(adjacency, sourceId, dist, prev, via, pq, visited, rank, order, u, du, j)
        invariant pushes0 <= pushes <= pushes0 + j
        invariant |pq| == |pq0| + (pushes - pushes0)
        invariant NoLonger(dist0, dist)
      {
        ghost var before := dist;
        dist, prev, pq, via, pushes := RelaxEdge(sourceId, u, du, j, dist, prev, pq, visited, via, rank, order, pushes);
        NoLongerTransitive(dist0, before, dist);
      }
      ExpandDone(adjacency, sourceId, dist, prev, via, pq, visited, rank, order, u, du, |edges|);
    }

    /** One iteration of the relaxation loop: edge j of `u` lowers the distance of its target, or changes nothing. */
    method RelaxEdge(ghost sourceId: Id, u: Id, du: real, j: nat, dist0: map<Id, Dist>, prev0: map<Id, Id>,
                     pq0: multiset<Entry>, ghost visited: set<Id>, ghost via0: map<Id, Edge>,
                     ghost rank: map<Id, nat>, ghost order: seq<Id>, ghost pushes0: nat)
      returns (dist: map<Id, Dist>, prev: map<Id, Id>, pq: multiset<Entry>, ghost via: map<Id, Edge>,
               ghost pushes: nat)
      requires Expanding(adjacency, sourceId, dist0, prev0, via0, pq0, visited, rank, order, u, du, j)
      requires u in adjacency && j < |adjacency[u]|
      ensures Expanding(adjacency, sourceId, dist, prev, via, pq, visited, rank, order, u, du, j + 1)
      ensures NoLonger(dist0, dist)
      ensures pushes0 <= pushes <= pushes0 + 1 && |pq| == |pq0| + (pushes - pushes0)
    {
      dist, prev, pq, via, pushes := dist0, prev0, pq0, via0, pushes0;
      var e := adjacency[u][j];
      var alt := du + e.weightMeters;
      if Shorter(alt, DistOf(dist, e.to)) {
        RelaxImproves(adjacency, sourceId, dist, prev, via, pq, visited, rank, order, u, du, j, e);
        dist := dist[e.to := Finite(alt)];
        prev := prev[e.to := u];
        via := via[e.to := e];
        pq := pq + multiset{Entry(e.to, alt)};
        pushes := pushes + 1;
      } else {
        RelaxSkips(adjacency, sourceId, dist, prev, via, pq, visited, rank, order, u, du, j, e);
      }
    }

    /** The walk back from the target along `prev`, prepending each predecessor. */
    method Reconstruct(sourceId: Id, targetId: Id, ghost dist: map<Id, Dist>, prev: map<Id, Id>,
                       ghost pq: multiset<Entry>, ghost visited: set<Id>, ghost via: map<Id, Edge>,
                       ghost rank: map<Id, nat>, ghost order: seq<Id>)
      returns (path: seq<Id>)
      requires Core(adjacency, sourceId, dist, prev, via, pq, visited, rank, order)
      requires targetId in visited
      ensures path != [] && path[0] == sourceId && path[|path| - 1] == targetId
      ensures IsRoute(adjacency, path)
      ensures IsShortestRoute(adjacency, sourceId, targetId, path)
    {
      var cur := targetId;
      path := [cur];
      ghost var es: seq<Edge> := [];
      while cur != sourceId
        invariant cur in visited
        invariant IsWalk(adjacency, cur, es) && End(cur, es) == targetId && Nodes(cur, es) == path
        invariant DistOf(dist, targetId) == Finite(DistOf(dist, cur).meters + Cost(es))
        decreases rank[cur]
      {
        // the source is the only settled node without a predecessor: `prev.get` never yields null
        assert cur in prev;
        ghost var e := via[cur];
        Prepend(adjacency, prev[cur], e, es);
        es := [e] + es;
        cur := prev[cur];
        path := [cur] + path;
      }
      WalkIsRoute(adjacency, sourceId, es);
    }
  }
}
