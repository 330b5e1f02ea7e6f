/**
 * The graph records built from a map export: nodes, directed weighted edges
 * and the graph aggregate (a node table plus an adjacency table).
 */
module OsmGraph {

  /** A node identifier: a Java `long`. Identifiers are only compared, never computed with. */
  newtype Id = x: int | -0x8000_0000_0000_0000 <= x < 0x8000_0000_0000_0000

  /** An edge weight in meters. Every weight the builder produces is a great-circle distance, never negative. */
  type Weight = r: real | 0.0 <= r

  /** A point of the map. Coordinates are degrees; IEEE doubles are modelled as reals. */
  datatype Node = Node(id: Id, lat: real, lon: real)

  /** A directed arc. */
  datatype Edge = Edge(from: Id, to: Id, weightMeters: Weight)

  datatype Graph = Graph(nodeIdToNode: map<Id, Node>, adjacency: map<Id, seq<Edge>>)

  /** The great-circle distance between two coordinate pairs (lat1, lon1, lat2, lon2). */
  type Distance = (real, real, real, real) -> Weight

  /** The adjacency list of `k`, or the empty list when `k` has none (what `computeIfAbsent` creates). */
  function EdgesOf(adjacency: map<Id, seq<Edge>>, k: Id): seq<Edge>
  {
    if k in adjacency then adjacency[k] else []
  }

  /** Every node is stored under its own id. */
  ghost predicate NodesKeyed(nodes: map<Id, Node>)
  {
    forall k :: k in nodes ==> nodes[k].id == k
  }

  /**
   * The shape every adjacency table keeps while the graph is built: each key is a
   * known node, and each stored edge leaves its key and ends at a known node.
   */
  ghost predicate EdgesWellFormed(nodes: map<Id, Node>, adjacency: map<Id, seq<Edge>>)
  {
    && adjacency.Keys <= nodes.Keys
    && forall k, e :: k in adjacency && e in adjacency[k] ==> e.from == k && e.to in nodes
  }

  /** The invariant of a finished graph: the adjacency table has exactly the node table's keys. */
  ghost predicate ValidGraph(g: Graph)
  {
    && NodesKeyed(g.nodeIdToNode)
    && EdgesWellFormed(g.nodeIdToNode, g.adjacency)
    && g.adjacency.Keys == g.nodeIdToNode.Keys
  }
}
