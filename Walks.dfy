/**
 * Walks through an adjacency table: a start node and the sequence of edges taken.
 * An edge is taken from the list of the node the walk is at, and leads to its `to` end.
 */
module Walks {
  import opened OsmGraph

  /** Where a walk from `s` along `es` ends. */
  function End(s: Id, es: seq<Edge>): Id
  {
    if es == [] then s else es[|es| - 1].to
  }

  /** Every edge of `es` is in the adjacency list of the node the walk has reached. */
  ghost predicate IsWalk(adjacency: map<Id, seq<Edge>>, s: Id, es: seq<Edge>)
    decreases |es|
  {
    es == [] ||
    (var front := es[..|es| - 1];
     && IsWalk(adjacency, s, front)
     && End(s, front) in adjacency
     && es[|es| - 1] in adjacency[End(s, front)])
  }

  /** The total weight of a walk. */
  function Cost(es: seq<Edge>): real
    decreases |es|
  {
    if es == [] then 0.0 else Cost(es[..|es| - 1]) + es[|es| - 1].weightMeters
  }

  /** The node ids a walk visits, in order, both ends included. */
  function Nodes(s: Id, es: seq<Edge>): seq<Id>
    decreases |es|
  {
    if es == [] then [s] else Nodes(s, es[..|es| - 1]) + [es[|es| - 1].to]
  }

  ghost predicate Reachable(adjacency: map<Id, seq<Edge>>, s: Id, t: Id)
  {
    exists es :: IsWalk(adjacency, s, es) && End(s, es) == t
  }

  /** A sequence of ids where each consecutive pair is an edge of the first one's list. */
  ghost predicate IsRoute(adjacency: map<Id, seq<Edge>>, path: seq<Id>)
  {
    forall i :: 0 <= i < |path| - 1 ==>
      path[i] in adjacency && exists e :: e in adjacency[path[i]] && e.to == path[i + 1]
  }

  /** `path` is the node sequence of a walk from s to t that weighs no more than any other such walk. */
  ghost predicate IsShortestRoute(adjacency: map<Id, seq<Edge>>, s: Id, t: Id, path: seq<Id>)
  {
    exists es :: && IsWalk(adjacency, s, es) && End(s, es) == t && Nodes(s, es) == path
                 && forall other :: IsWalk(adjacency, s, other) && End(s, other) == t ==> Cost(es) <= Cost(other)
  }

  lemma {:induction false} CostNonNegative(es: seq<Edge>)
    ensures Cost(es) >= 0.0
    decreases |es|
  {
    if es != [] {
      CostNonNegative(es[..|es| - 1]);
    }
  }

  /** The nodes of a walk start at its start, end at its end, and each hop uses the edge taken there. */
  lemma {:induction false} WalkNodes(adjacency: map<Id, seq<Edge>>, s: Id, es: seq<Edge>)
    requires IsWalk(adjacency, s, es)
    ensures var p := Nodes(s, es);
      && |p| == |es| + 1 && p[0] == s && p[|p| - 1] == End(s, es)
      && forall i :: 0 <= i < |es| ==> p[i] in adjacency && es[i] in adjacency[p[i]] && es[i].to == p[i + 1]
    decreases |es|
  {
    if es != [] {
      var front := es[..|es| - 1];
      WalkNodes(adjacency, s, front);
      var p, q := Nodes(s, front), Nodes(s, es);
      assert q == p + [es[|es| - 1].to];
      forall i | 0 <= i < |es|
        ensures q[i] in adjacency && es[i] in adjacency[q[i]] && es[i].to == q[i + 1]
      {
        if i < |es| - 1 {
          assert es[i] == front[i] && q[i] == p[i] && q[i + 1] == p[i + 1];
        } else {
          assert q[i] == p[|p| - 1] == End(s, front);
        }
      }
    }
  }

  /** The node sequence of a walk is a route from its start to its end. */
  lemma WalkIsRoute(adjacency: map<Id, seq<Edge>>, s: Id, es: seq<Edge>)
    requires IsWalk(adjacency, s, es)
    ensures var p := Nodes(s, es);
      p != [] && p[0] == s && p[|p| - 1] == End(s, es) && IsRoute(adjacency, p)
  {
    WalkNodes(adjacency, s, es);
    var p := Nodes(s, es);
    forall i | 0 <= i < |p| - 1
      ensures p[i] in adjacency && exists e :: e in adjacency[p[i]] && e.to == p[i + 1]
    {
      assert es[i] in adjacency[p[i]] && es[i].to == p[i + 1];
    }
  }

  /** Taking edge `e` out of `u` and then walking `es` is a walk from `u`. */
  lemma {:induction false} Prepend(adjacency: map<Id, seq<Edge>>, u: Id, e: Edge, es: seq<Edge>)
    requires u in adjacency && e in adjacency[u] && IsWalk(adjacency, e.to, es)
    ensures IsWalk(adjacency, u, [e] + es)
    ensures End(u, [e] + es) == End(e.to, es)
    ensures Cost([e] + es) == e.weightMeters + Cost(es)
    ensures Nodes(u, [e] + es) == [u] + Nodes(e.to, es)
    decreases |es|
  {
    if es == [] {
      assert [e] + es == [e];
      assert [e][..0] == [];
      assert IsWalk(adjacency, u, [e][..0]);
    } else {
      var front := es[..|es| - 1];
      var w := [e] + es;
      Prepend(adjacency, u, e, front);
      assert w[..|w| - 1] == [e] + front;
      assert w[|w| - 1] == es[|es| - 1];
      assert End(e.to, front) in adjacency && es[|es| - 1] in adjacency[End(e.to, front)];
      assert IsWalk(adjacency, u, w[..|w| - 1]) && End(u, w[..|w| - 1]) == End(e.to, front);
    }
  }
}
