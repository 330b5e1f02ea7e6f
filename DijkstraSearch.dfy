/**
 * The state of one shortest-path search and the invariants that make it correct:
 * tentative distances, predecessors, a priority queue with duplicate entries
 * (lazy deletion), and the set of settled (visited) nodes.
 */
module DijkstraSearch {
  import opened OsmGraph
  import opened Walks

  /** A tentative distance; `Infinity` stands for Double.POSITIVE_INFINITY. */
  datatype Dist = Finite(meters: real) | Infinity

  /** A queue entry: a node and the distance it was pushed with. */
  datatype Entry = Entry(id: Id, dist: real)

  /** `dist.getOrDefault(v, +infinity)`. */
  function DistOf(dist: map<Id, Dist>, v: Id): Dist
  {
    if v in dist then dist[v] else Infinity
  }

  /** alt < d, with every real below infinity. */
  predicate Shorter(alt: real, d: Dist)
  {
    d.Infinity? || alt < d.meters
  }

  /** d <= r: a finite distance no greater than r. */
  predicate AtMost(d: Dist, r: real)
  {
    d.Finite? && d.meters <= r
  }

  /** `e` is an entry the queue may poll next: no entry has a smaller distance. */
  predicate IsMin(pq: multiset<Entry>, e: Entry)
  {
    e in pq && forall f :: f in pq ==> e.dist <= f.dist
  }

  lemma MinExists(pq: multiset<Entry>)
    requires pq != multiset{}
    ensures exists e :: IsMin(pq, e)
    decreases |pq|
  {
    var x :| x in pq;
    var rest := pq - multiset{x};
    assert pq == rest + multiset{x};
    if rest == multiset{} {
      assert IsMin(pq, x);
    } else {
      MinExists(rest);
      var m :| IsMin(rest, m);
      if x.dist <= m.dist {
        assert IsMin(pq, x);
      } else {
        assert IsMin(pq, m);
      }
    }
  }

  // ---------------------------------------------------------------------------
  // Counting queue pushes

  function Degree(adjacency: map<Id, seq<Edge>>, x: Id): nat
  {
    if x in adjacency then |adjacency[x]| else 0
  }

  /** The summed out-degree of the nodes listed in `xs`. */
  function DegreeSum(adjacency: map<Id, seq<Edge>>, xs: seq<Id>): nat
    decreases |xs|
  {
    if xs == [] then 0 else DegreeSum(adjacency, xs[..|xs| - 1]) + Degree(adjacency, xs[|xs| - 1])
  }

  /** The summed out-degree of the nodes in `ks`. */
  ghost function DegreeSumOver(adjacency: map<Id, seq<Edge>>, ks: set<Id>): nat
    decreases ks
  {
    if ks == {} then 0
    else var k := PickId(ks); Degree(adjacency, k) + DegreeSumOver(adjacency, ks - {k})
  }

  ghost function PickId(ks: set<Id>): (k: Id)
    requires ks != {}
    ensures k in ks
  {
    var k :| k in ks; k
  }

  /** The number of edges in the table. */
  ghost function TotalOutDegree(adjacency: map<Id, seq<Edge>>): nat
  {
    DegreeSumOver(adjacency, adjacency.Keys)
  }

  lemma {:induction false} DegreeSumOverRemove(adjacency: map<Id, seq<Edge>>, ks: set<Id>, x: Id)
    requires x in ks
    ensures DegreeSumOver(adjacency, ks) == Degree(adjacency, x) + DegreeSumOver(adjacency, ks - {x})
    decreases ks
  {
    var k := PickId(ks);
    if k != x {
      DegreeSumOverRemove(adjacency, ks - {k}, x);
      DegreeSumOverRemove(adjacency, ks - {x}, k);
      assert ks - {k} - {x} == ks - {x} - {k};
    }
  }

  ghost predicate Distinct(xs: seq<Id>)
  {
    forall i, j :: 0 <= i < j < |xs| ==> xs[i] != xs[j]
  }

  /** Listing distinct nodes never counts more edges than the table has. */
  lemma {:induction false} DistinctDegreeBound(adjacency: map<Id, seq<Edge>>, xs: seq<Id>, ks: set<Id>)
    requires Distinct(xs)
    requires forall i :: 0 <= i < |xs| && xs[i] in adjacency ==> xs[i] in ks
    ensures DegreeSum(adjacency, xs) <= DegreeSumOver(adjacency, ks)
    decreases |xs|
  {
    if xs != [] {
      var front, x := xs[..|xs| - 1], xs[|xs| - 1];
      assert Distinct(front);
      if x in adjacency {
        DegreeSumOverRemove(adjacency, ks, x);
        assert forall i :: 0 <= i < |front| && front[i] in adjacency ==> front[i] in ks - {x} by {
          forall i | 0 <= i < |front| && front[i] in adjacency ensures front[i] in ks - {x} {
            assert front[i] == xs[i] && xs[i] != xs[|xs| - 1];
          }
        }
        DistinctDegreeBound(adjacency, front, ks - {x});
      } else {
        assert forall i :: 0 <= i < |front| && front[i] in adjacency ==> front[i] in ks by {
          forall i | 0 <= i < |front| && front[i] in adjacency ensures front[i] in ks {
            assert front[i] == xs[i];
          }
        }
        DistinctDegreeBound(adjacency, front, ks);
      }
    }
  }

  // ---------------------------------------------------------------------------
  // Search invariants

  /** The source is at distance 0 and has no predecessor. */
  ghost predicate SourceFixed(source: Id, dist: map<Id, Dist>, prev: map<Id, Id>)
  {
    DistOf(dist, source) == Finite(0.0) && source !in prev
  }

  /** Every finite distance is non-negative. */
  ghost predicate NonNegative(dist: map<Id, Dist>)
  {
    forall y :: DistOf(dist, y).Finite? ==> 0.0 <= DistOf(dist, y).meters
  }

  /** A finite distance was reached through a predecessor, unless it is the source's. */
  ghost predicate FiniteHasPred(source: Id, dist: map<Id, Dist>, prev: map<Id, Id>)
  {
    forall y :: DistOf(dist, y).Finite? ==> y == source || y in prev
  }

  /**
   * Each predecessor link y <- prev[y] uses edge via[y] of a settled node, and
   * dist[y] is dist[prev[y]] plus that edge's weight; a settled node was settled
   * after its predecessor.
   */
  ghost predicate PrevTree(adjacency: map<Id, seq<Edge>>, dist: map<Id, Dist>, prev: map<Id, Id>,
                           via: map<Id, Edge>, visited: set<Id>, rank: map<Id, nat>)
  {
    forall y :: y in prev ==>
      && y in via && prev[y] in visited && prev[y] in adjacency
      && via[y] in adjacency[prev[y]] && via[y].to == y
      && DistOf(dist, y).Finite? && DistOf(dist, prev[y]).Finite?
      && DistOf(dist, y).meters == DistOf(dist, prev[y]).meters + via[y].weightMeters
      && (y in visited ==> prev[y] in rank && y in rank && rank[prev[y]] < rank[y])
  }

  /** Every entry is at least the current distance of its node. */
  ghost predicate QueueSound(dist: map<Id, Dist>, pq: multiset<Entry>)
  {
    forall f :: f in pq ==> AtMost(DistOf(dist, f.id), f.dist)
  }

  /** An unsettled node with a finite distance has an entry with exactly that distance. */
  ghost predicate QueueComplete(dist: map<Id, Dist>, pq: multiset<Entry>, visited: set<Id>)
  {
    forall y :: y !in visited && DistOf(dist, y).Finite? ==> Entry(y, DistOf(dist, y).meters) in pq
  }

  /** A settled node's distance is final: no walk from the source to it is lighter. */
  ghost predicate VisitedFinal(adjacency: map<Id, seq<Edge>>, source: Id, dist: map<Id, Dist>, visited: set<Id>)
  {
    && (forall x :: x in visited ==> DistOf(dist, x).Finite?)
    && forall es :: IsWalk(adjacency, source, es) && End(source, es) in visited ==>
         AtMost(DistOf(dist, End(source, es)), Cost(es))
  }

  /** Settled nodes are no farther than anything still queued. */
  ghost predicate VisitedBelowQueue(dist: map<Id, Dist>, pq: multiset<Entry>, visited: set<Id>)
  {
    forall x, f :: x in visited && f in pq ==> AtMost(DistOf(dist, x), f.dist)
  }

  /** Edge e out of a node at distance d has been relaxed. */
  ghost predicate EdgeRelaxed(dist: map<Id, Dist>, d: real, e: Edge)
  {
    AtMost(DistOf(dist, e.to), d + e.weightMeters)
  }

  /** Every edge out of x has been relaxed. */
  ghost predicate Relaxed(adjacency: map<Id, seq<Edge>>, dist: map<Id, Dist>, x: Id)
  {
    forall e :: x in adjacency && e in adjacency[x] ==>
      DistOf(dist, x).Finite? && EdgeRelaxed(dist, DistOf(dist, x).meters, e)
  }

  /** The settled nodes in the order they were settled, and each one's position in it. */
  ghost predicate Ranked(visited: set<Id>, rank: map<Id, nat>, order: seq<Id>)
  {
    && rank.Keys == visited
    && (forall x :: x in rank ==> rank[x] < |order|)
    && (forall i :: 0 <= i < |order| ==> order[i] in visited)
    && Distinct(order)
  }

  /** What holds throughout the search. */
  ghost predicate Core(adjacency: map<Id, seq<Edge>>, source: Id, dist: map<Id, Dist>, prev: map<Id, Id>,
                       via: map<Id, Edge>, pq: multiset<Entry>, visited: set<Id>, rank: map<Id, nat>, order: seq<Id>)
  {
    && SourceFixed(source, dist, prev)
    && NonNegative(dist)
    && FiniteHasPred(source, dist, prev)
    && PrevTree(adjacency, dist, prev, via, visited, rank)
    && QueueSound(dist, pq)
    && QueueComplete(dist, pq, visited)
    && VisitedFinal(adjacency, source, dist, visited)
    && Ranked(visited, rank, order)
  }

  /** What holds before each poll of the queue. */
  ghost predicate Invariant(adjacency: map<Id, seq<Edge>>, source: Id, dist: map<Id, Dist>, prev: map<Id, Id>,
                            via: map<Id, Edge>, pq: multiset<Entry>, visited: set<Id>, rank: map<Id, nat>, order: seq<Id>)
  {
    && Core(adjacency, source, dist, prev, via, pq, visited, rank, order)
    && VisitedBelowQueue(dist, pq, visited)
    && forall x :: x in visited ==> Relaxed(adjacency, dist, x)
  }

  /** What holds while the edges of `u`, settled at distance `du`, are being relaxed; the first `j` are done. */
  ghost predicate Expanding(adjacency: map<Id, seq<Edge>>, source: Id, dist: map<Id, Dist>, prev: map<Id, Id>,
                            via: map<Id, Edge>, pq: multiset<Entry>, visited: set<Id>, rank: map<Id, nat>,
                            order: seq<Id>, u: Id, du: real, j: nat)
  {
    && Core(adjacency, source, dist, prev, via, pq, visited, rank, order)
    && u in visited && DistOf(dist, u) == Finite(du)
    && order != [] && order[|order| - 1] == u
    && (forall x :: x in visited ==> AtMost(DistOf(dist, x), du))
    && (forall f :: f in pq ==> du <= f.dist)
    && (forall x :: x in visited && x != u ==> Relaxed(adjacency, dist, x))
    && (u in adjacency ==> j <= |adjacency[u]| && forall i :: 0 <= i < j ==> EdgeRelaxed(dist, du, adjacency[u][i]))
  }

  // ---------------------------------------------------------------------------
  // The invariants are established and preserved

  /** The state right after initialisation: only the source is at a finite distance, and it is queued. */
  lemma Initial(adjacency: map<Id, seq<Edge>>, source: Id, dist: map<Id, Dist>)
    requires DistOf(dist, source) == Finite(0.0)
    requires forall v :: v != source ==> DistOf(dist, v) == Infinity
    ensures Invariant(adjacency, source, dist, map[], map[], multiset{Entry(source, 0.0)}, {}, map[], [])
  {
  }

  /**
   * Every walk from the source to an unsettled node is at least as heavy as some
   * queued entry: it leaves the settled set along an edge that was relaxed.
   */
  lemma {:induction false} FrontierBound(adjacency: map<Id, seq<Edge>>, source: Id, dist: map<Id, Dist>,
                                         pq: multiset<Entry>, visited: set<Id>, es: seq<Edge>)
    requires DistOf(dist, source) == Finite(0.0)
    requires QueueComplete(dist, pq, visited)
    requires VisitedFinal(adjacency, source, dist, visited)
    requires forall x :: x in visited ==> Relaxed(adjacency, dist, x)
    requires IsWalk(adjacency, source, es) && End(source, es) !in visited
    ensures exists f :: f in pq && f.dist <= Cost(es)
    decreases |es|
  {
    if es == [] {
      assert Entry(source, 0.0) in pq;
    } else {
      var front, last := es[..|es| - 1], es[|es| - 1];
      var x := End(source, front);
      assert x in adjacency && last in adjacency[x];
      assert Cost(es) == Cost(front) + last.weightMeters;
      if x in visited {
        assert AtMost(DistOf(dist, x), Cost(front));
        assert Relaxed(adjacency, dist, x);
        assert EdgeRelaxed(dist, DistOf(dist, x).meters, last);
        assert Entry(last.to, DistOf(dist, last.to).meters) in pq;
      } else {
        FrontierBound(adjacency, source, dist, pq, visited, front);
      }
    }
  }

  /** Polling an entry of an already settled node and discarding it keeps the invariant. */
  lemma PopStale(adjacency: map<Id, seq<Edge>>, source: Id, dist: map<Id, Dist>, prev: map<Id, Id>,
                 via: map<Id, Edge>, pq: multiset<Entry>, visited: set<Id>, rank: map<Id, nat>, order: seq<Id>,
                 cur: Entry)
    requires Invariant(adjacency, source, dist, prev, via, pq, visited, rank, order)
    requires cur in pq && cur.id in visited
    ensures Invariant(adjacency, source, dist, prev, via, pq - multiset{cur}, visited, rank, order)
  {
    var q := pq - multiset{cur};
    assert forall f :: f in q ==> f in pq;
    forall y | y !in visited && DistOf(dist, y).Finite?
      ensures Entry(y, DistOf(dist, y).meters) in q
    {
      assert Entry(y, DistOf(dist, y).meters) != cur;
    }
  }

  /** The polled minimal entry of an unsettled node carries its distance, and that distance is final. */
  lemma PopSettles(adjacency: map<Id, seq<Edge>>, source: Id, dist: map<Id, Dist>,
                   pq: multiset<Entry>, visited: set<Id>, cur: Entry)
    requires DistOf(dist, source) == Finite(0.0)
    requires QueueSound(dist, pq) && QueueComplete(dist, pq, visited)
    requires VisitedFinal(adjacency, source, dist, visited)
    requires forall x :: x in visited ==> Relaxed(adjacency, dist, x)
    requires IsMin(pq, cur) && cur.id !in visited
    ensures DistOf(dist, cur.id) == Finite(cur.dist)
    ensures VisitedFinal(adjacency, source, dist, visited + {cur.id})
  {
    var u, du := cur.id, cur.dist;
    assert AtMost(DistOf(dist, u), du);
    assert Entry(u, DistOf(dist, u).meters) in pq;
    forall es | IsWalk(adjacency, source, es) && End(source, es) == u
      ensures AtMost(DistOf(dist, u), Cost(es))
    {
      FrontierBound(adjacency, source, dist, pq, visited, es);
    }
  }

  /** Removing the polled entry of a node that becomes settled keeps the queue complete. */
  lemma PopQueue(dist: map<Id, Dist>, pq: multiset<Entry>, visited: set<Id>, cur: Entry)
    requires QueueSound(dist, pq) && QueueComplete(dist, pq, visited)
    requires cur in pq
    ensures QueueSound(dist, pq - multiset{cur})
    ensures QueueComplete(dist, pq - multiset{cur}, visited + {cur.id})
  {
    var q := pq - multiset{cur};
    assert forall f :: f in q ==> f in pq;
    forall y | y !in visited + {cur.id} && DistOf(dist, y).Finite?
      ensures Entry(y, DistOf(dist, y).meters) in q
    {
      assert Entry(y, DistOf(dist, y).meters) != cur;
    }
  }

  /** Appending a newly settled node to the settling order. */
  lemma PopRanked(adjacency: map<Id, seq<Edge>>, dist: map<Id, Dist>, prev: map<Id, Id>, via: map<Id, Edge>,
                  visited: set<Id>, rank: map<Id, nat>, order: seq<Id>, u: Id)
    requires PrevTree(adjacency, dist, prev, via, visited, rank) && Ranked(visited, rank, order)
    requires u !in visited
    ensures PrevTree(adjacency, dist, prev, via, visited + {u}, rank[u := |order|])
    ensures Ranked(visited + {u}, rank[u := |order|], order + [u])
  {
    var vis, rk, ord := visited + {u}, rank[u := |order|], order + [u];
    assert forall i :: 0 <= i < |order| ==> ord[i] == order[i];
  }

  /**
   * Polling a minimal entry of an unsettled node: its distance is the entry's,
   * no walk to it is lighter, and settling it starts its expansion.
   */
  lemma PopFresh(adjacency: map<Id, seq<Edge>>, source: Id, dist: map<Id, Dist>, prev: map<Id, Id>,
                 via: map<Id, Edge>, pq: multiset<Entry>, visited: set<Id>, rank: map<Id, nat>, order: seq<Id>,
                 cur: Entry)
    requires Invariant(adjacency, source, dist, prev, via, pq, visited, rank, order)
    requires IsMin(pq, cur) && cur.id !in visited
    ensures DistOf(dist, cur.id) == Finite(cur.dist)
    ensures Expanding(adjacency, source, dist, prev, via, pq - multiset{cur}, visited + {cur.id},
                      rank[cur.id := |order|], order + [cur.id], cur.id, cur.dist, 0)
  {
    PopSettles(adjacency, source, dist, pq, visited, cur);
    PopQueue(dist, pq, visited, cur);
    PopRanked(adjacency, dist, prev, via, visited, rank, order, cur.id);
    assert forall f :: f in pq - multiset{cur} ==> f in pq;
  }

  /** No distance got longer from `before` to `after`, and none became infinite. */
  ghost predicate NoLonger(before: map<Id, Dist>, after: map<Id, Dist>)
  {
    forall v :: DistOf(before, v).Finite? ==> AtMost(DistOf(after, v), DistOf(before, v).meters)
  }

  lemma NoLongerTransitive(a: map<Id, Dist>, b: map<Id, Dist>, c: map<Id, Dist>)
    requires NoLonger(a, b) && NoLonger(b, c)
    ensures NoLonger(a, c)
  {
    forall v | DistOf(a, v).Finite? ensures AtMost(DistOf(c, v), DistOf(a, v).meters) {
      assert AtMost(DistOf(b, v), DistOf(a, v).meters);
    }
  }

  /** dist' lowers dist at `v` to `alt` and leaves every other node alone. */
  ghost predicate Lowered(dist: map<Id, Dist>, dist': map<Id, Dist>, v: Id, alt: real)
  {
    && Shorter(alt, DistOf(dist, v))
    && DistOf(dist', v) == Finite(alt)
    && forall x :: x != v ==> DistOf(dist', x) == DistOf(dist, x)
  }

  lemma LoweredAtMost(dist: map<Id, Dist>, dist': map<Id, Dist>, v: Id, alt: real, x: Id, r: real)
    requires Lowered(dist, dist', v, alt)
    requires AtMost(DistOf(dist, x), r)
    ensures AtMost(DistOf(dist', x), r)
  {
  }

  lemma RelaxTree(adjacency: map<Id, seq<Edge>>, dist: map<Id, Dist>, prev: map<Id, Id>,
                  via: map<Id, Edge>, visited: set<Id>, rank: map<Id, nat>, u: Id, du: real, e: Edge,
                  dist': map<Id, Dist>)
    requires PrevTree(adjacency, dist, prev, via, visited, rank)
    requires u in visited && u in adjacency && e in adjacency[u] && e.to !in visited
    requires DistOf(dist, u) == Finite(du) && e.to != u
    requires Lowered(dist, dist', e.to, du + e.weightMeters)
    ensures PrevTree(adjacency, dist', prev[e.to := u], via[e.to := e], visited, rank)
  {
    var v := e.to;
    forall y | y in prev && y != v
      ensures DistOf(dist', prev[y]) == DistOf(dist, prev[y])
    {
      assert prev[y] in visited;
    }
  }

  lemma RelaxQueue(dist: map<Id, Dist>, pq: multiset<Entry>, visited: set<Id>, v: Id, alt: real,
                   dist': map<Id, Dist>)
    requires QueueSound(dist, pq) && QueueComplete(dist, pq, visited)
    requires Lowered(dist, dist', v, alt)
    ensures QueueSound(dist', pq + multiset{Entry(v, alt)})
    ensures QueueComplete(dist', pq + multiset{Entry(v, alt)}, visited)
  {
    var pq' := pq + multiset{Entry(v, alt)};
    forall f | f in pq' ensures AtMost(DistOf(dist', f.id), f.dist) {
      if f != Entry(v, alt) {
        LoweredAtMost(dist, dist', v, alt, f.id, f.dist);
      }
    }
    forall y | y !in visited && DistOf(dist', y).Finite?
      ensures Entry(y, DistOf(dist', y).meters) in pq'
    {
      if y != v {
        assert Entry(y, DistOf(dist, y).meters) in pq;
      }
    }
  }

  lemma RelaxFinal(adjacency: map<Id, seq<Edge>>, source: Id, dist: map<Id, Dist>, visited: set<Id>,
                   v: Id, alt: real, dist': map<Id, Dist>)
    requires VisitedFinal(adjacency, source, dist, visited)
    requires Lowered(dist, dist', v, alt) && v !in visited
    ensures VisitedFinal(adjacency, source, dist', visited)
  {
    forall es | IsWalk(adjacency, source, es) && End(source, es) in visited
      ensures AtMost(DistOf(dist', End(source, es)), Cost(es))
    {
      assert AtMost(DistOf(dist, End(source, es)), Cost(es));
    }
  }

  lemma RelaxRelaxed(adjacency: map<Id, seq<Edge>>, dist: map<Id, Dist>, visited: set<Id>,
                     u: Id, du: real, j: nat, e: Edge, dist': map<Id, Dist>)
    requires u in adjacency && j < |adjacency[u]| && adjacency[u][j] == e
    requires forall x :: x in visited && x != u ==> Relaxed(adjacency, dist, x)
    requires forall i :: 0 <= i < j ==> EdgeRelaxed(dist, du, adjacency[u][i])
    requires Lowered(dist, dist', e.to, du + e.weightMeters) && e.to !in visited
    ensures forall x :: x in visited && x != u ==> Relaxed(adjacency, dist', x)
    ensures forall i :: 0 <= i < j + 1 ==> EdgeRelaxed(dist', du, adjacency[u][i])
  {
    var v, alt := e.to, du + e.weightMeters;
    forall x | x in visited && x != u
      ensures Relaxed(adjacency, dist', x)
    {
      assert Relaxed(adjacency, dist, x);
      forall f | x in adjacency && f in adjacency[x]
        ensures DistOf(dist', x).Finite? && EdgeRelaxed(dist', DistOf(dist', x).meters, f)
      {
        assert EdgeRelaxed(dist, DistOf(dist, x).meters, f);
        LoweredAtMost(dist, dist', v, alt, f.to, DistOf(dist, x).meters + f.weightMeters);
      }
    }
    forall i | 0 <= i < j + 1
      ensures EdgeRelaxed(dist', du, adjacency[u][i])
    {
      if i < j {
        LoweredAtMost(dist, dist', v, alt, adjacency[u][i].to, du + adjacency[u][i].weightMeters);
      }
    }
  }

  /** Lowering the distance of an unsettled node along an edge of a settled one keeps `Core`. */
  lemma RelaxCore(adjacency: map<Id, seq<Edge>>, source: Id, dist: map<Id, Dist>, prev: map<Id, Id>,
                  via: map<Id, Edge>, pq: multiset<Entry>, visited: set<Id>, rank: map<Id, nat>,
                  order: seq<Id>, u: Id, du: real, e: Edge)
    requires Core(adjacency, source, dist, prev, via, pq, visited, rank, order)
    requires u in visited && DistOf(dist, u) == Finite(du)
    requires u in adjacency && e in adjacency[u]
    requires forall x :: x in visited ==> AtMost(DistOf(dist, x), du)
    requires Shorter(du + e.weightMeters, DistOf(dist, e.to))
    ensures e.to !in visited
    ensures Core(adjacency, source, dist[e.to := Finite(du + e.weightMeters)], prev[e.to := u], via[e.to := e],
                 pq + multiset{Entry(e.to, du + e.weightMeters)}, visited, rank, order)
  {
    var v, alt := e.to, du + e.weightMeters;
    var dist' := dist[v := Finite(alt)];
    assert v in visited ==> AtMost(DistOf(dist, v), du);
    assert Lowered(dist, dist', v, alt);
    var prev', via', pq' := prev[v := u], via[v := e], pq + multiset{Entry(v, alt)};
    assert SourceFixed(source, dist', prev');
    RelaxTree(adjacency, dist, prev, via, visited, rank, u, du, e, dist');
    RelaxQueue(dist, pq, visited, v, alt, dist');
    RelaxFinal(adjacency, source, dist, visited, v, alt, dist');
  }

  /** The part of `Expanding` beyond `Core`, after relaxing edge j of `u` when it improves. */
  lemma RelaxExtras(adjacency: map<Id, seq<Edge>>, source: Id, dist: map<Id, Dist>, prev: map<Id, Id>,
                    via: map<Id, Edge>, pq: multiset<Entry>, visited: set<Id>, rank: map<Id, nat>,
                    order: seq<Id>, u: Id, du: real, j: nat, e: Edge)
    requires Expanding(adjacency, source, dist, prev, via, pq, visited, rank, order, u, du, j)
    requires u in adjacency && j < |adjacency[u]| && adjacency[u][j] == e
    requires Shorter(du + e.weightMeters, DistOf(dist, e.to))
    ensures DistOf(dist[e.to := Finite(du + e.weightMeters)], u) == Finite(du)
    ensures forall x :: x in visited ==> AtMost(DistOf(dist[e.to := Finite(du + e.weightMeters)], x), du)
    ensures forall f :: f in pq + multiset{Entry(e.to, du + e.weightMeters)} ==> du <= f.dist
    ensures forall x :: x in visited && x != u ==> Relaxed(adjacency, dist[e.to := Finite(du + e.weightMeters)], x)
    ensures forall i :: 0 <= i < j + 1 ==> EdgeRelaxed(dist[e.to := Finite(du + e.weightMeters)], du, adjacency[u][i])
  {
    var v, alt := e.to, du + e.weightMeters;
    var dist' := dist[v := Finite(alt)];
    assert v in visited ==> AtMost(DistOf(dist, v), du);
    assert Lowered(dist, dist', v, alt);
    RelaxRelaxed(adjacency, dist, visited, u, du, j, e, dist');
    forall x | x in visited ensures AtMost(DistOf(dist', x), du) {
      LoweredAtMost(dist, dist', v, alt, x, du);
    }
  }

  /** Relaxing edge j of `u`, `e`, when it improves the distance of its target. */
  lemma RelaxImproves(adjacency: map<Id, seq<Edge>>, source: Id, dist: map<Id, Dist>, prev: map<Id, Id>,
                      via: map<Id, Edge>, pq: multiset<Entry>, visited: set<Id>, rank: map<Id, nat>,
                      order: seq<Id>, u: Id, du: real, j: nat, e: Edge)
    requires Expanding(adjacency, source, dist, prev, via, pq, visited, rank, order, u, du, j)
    requires u in adjacency && j < |adjacency[u]| && adjacency[u][j] == e
    requires Shorter(du + e.weightMeters, DistOf(dist, e.to))
    ensures e.to !in visited
    ensures NoLonger(dist, dist[e.to := Finite(du + e.weightMeters)])
    ensures Expanding(adjacency, source, dist[e.to := Finite(du + e.weightMeters)], prev[e.to := u],
                      via[e.to := e], pq + multiset{Entry(e.to, du + e.weightMeters)},
                      visited, rank, order, u, du, j + 1)
  {
    RelaxCore(adjacency, source, dist, prev, via, pq, visited, rank, order, u, du, e);
    RelaxExtras(adjacency, source, dist, prev, via, pq, visited, rank, order, u, du, j, e);
  }

  /** Relaxing edge j of `u`, `e`, when it does not improve anything: the edge is relaxed already. */
  lemma RelaxSkips(adjacency: map<Id, seq<Edge>>, source: Id, dist: map<Id, Dist>, prev: map<Id, Id>,
                   via: map<Id, Edge>, pq: multiset<Entry>, visited: set<Id>, rank: map<Id, nat>,
                   order: seq<Id>, u: Id, du: real, j: nat, e: Edge)
    requires Expanding(adjacency, source, dist, prev, via, pq, visited, rank, order, u, du, j)
    requires u in adjacency && j < |adjacency[u]| && adjacency[u][j] == e
    requires !Shorter(du + e.weightMeters, DistOf(dist, e.to))
    ensures Expanding(adjacency, source, dist, prev, via, pq, visited, rank, order, u, du, j + 1)
  {
  }

  /** Once every edge of `u` is relaxed (or it has no list), the invariant holds again. */
  lemma ExpandDone(adjacency: map<Id, seq<Edge>>, source: Id, dist: map<Id, Dist>, prev: map<Id, Id>,
                   via: map<Id, Edge>, pq: multiset<Entry>, visited: set<Id>, rank: map<Id, nat>,
                   order: seq<Id>, u: Id, du: real, j: nat)
    requires Expanding(adjacency, source, dist, prev, via, pq, visited, rank, order, u, du, j)
    requires u in adjacency ==> j == |adjacency[u]|
    ensures Invariant(adjacency, source, dist, prev, via, pq, visited, rank, order)
  {
    assert Relaxed(adjacency, dist, u) by {
      forall e | u in adjacency && e in adjacency[u]
        ensures DistOf(dist, u).Finite? && EdgeRelaxed(dist, DistOf(dist, u).meters, e)
      {
        var i :| 0 <= i < |adjacency[u]| && adjacency[u][i] == e;
      }
    }
  }

  /** When the queue runs dry before the target is settled, no walk reaches the target. */
  lemma Exhausted(adjacency: map<Id, seq<Edge>>, source: Id, dist: map<Id, Dist>, prev: map<Id, Id>,
                  via: map<Id, Edge>, visited: set<Id>, rank: map<Id, nat>, order: seq<Id>, target: Id)
    requires Invariant(adjacency, source, dist, prev, via, multiset{}, visited, rank, order)
    requires target !in visited
    ensures !Reachable(adjacency, source, target)
    ensures target !in prev
  {
    assert forall y :: y !in visited ==> DistOf(dist, y).Infinity?;
    if Reachable(adjacency, source, target) {
      var es :| IsWalk(adjacency, source, es) && End(source, es) == target;
      FrontierBound(adjacency, source, dist, multiset{}, visited, es);
    }
  }
}
