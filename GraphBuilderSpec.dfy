/**
 * The map-graph builder as a state machine over parse events.
 *
 * The streaming XML parser is not part of this model: its callbacks arrive as a
 * sequence of `Event`s with already-typed attributes. `Step` is what one callback
 * of the handler does to the builder state (the node table, the adjacency table and
 * the per-way accumulator); `Run` folds it over a document, and `Build` adds the
 * final pass that gives every node an adjacency entry.
 */
module GraphBuilderSpec {
  import opened Wrappers
  import opened OsmGraph

  /** One parser callback, as the handler sees it. */
  datatype Event =
    | NodeEv(id: Id, lat: real, lon: real)        // start of <node id lat lon>
    | WayStart                                    // start of <way>
    | Nd(ref: Option<Id>)                         // start of <nd ref>, the attribute may be missing
    | Tag(k: Option<string>, v: Option<string>)   // start of <tag k v>, both attributes may be missing
    | WayEnd                                      // end of </way>
    | Other                                       // any other start or end the handler ignores

  /** The two tables and the per-way accumulator of the handler. */
  datatype HandlerState = HandlerState(
    nodes: map<Id, Node>,
    graph: map<Id, seq<Edge>>,
    inWay: bool,
    wayIsHighway: bool,
    wayOnewayForward: bool,
    wayOnewayReverse: bool,
    wayNodeRefs: seq<Id>)

  const Init := HandlerState(map[], map[], false, false, false, false, [])

  // ---------------------------------------------------------------------------
  // Tag values

  function ToUpperAscii(c: char): char
  {
    if 'a' <= c <= 'z' then (c as int - 32) as char else c
  }

  function ToLowerAscii(c: char): char
  {
    if 'A' <= c <= 'Z' then (c as int + 32) as char else c
  }

  /** Java's per-character rule of `equalsIgnoreCase`, over ASCII case mapping. */
  predicate CharEqualsIgnoreCase(c: char, d: char)
  {
    c == d || ToUpperAscii(c) == ToUpperAscii(d) || ToLowerAscii(ToUpperAscii(c)) == ToLowerAscii(ToUpperAscii(d))
  }

  function EqualsIgnoreCase(a: string, b: string): (r: bool)
    ensures r <==> |a| == |b| && forall i :: 0 <= i < |a| ==> CharEqualsIgnoreCase(a[i], b[i])
  {
    |a| == |b| && (a == [] || (CharEqualsIgnoreCase(a[0], b[0]) && EqualsIgnoreCase(a[1..], b[1..])))
  }

  /** A `oneway` value that makes the way usable only in the listed order. */
  predicate IsForwardValue(v: Option<string>)
  {
    v.Some? && (EqualsIgnoreCase("yes", v.value) || EqualsIgnoreCase("true", v.value) || v.value == "1")
  }

  /** A `oneway` value that makes the way usable only against the listed order. */
  predicate IsReverseValue(v: Option<string>)
  {
    v == Some("-1")
  }

  // ---------------------------------------------------------------------------
  // Edge emission when a way closes

  /** `computeIfAbsent(k, new list).add(e)`: append `e` to the list of `k`, creating it if needed. */
  function AddEdge(graph: map<Id, seq<Edge>>, k: Id, e: Edge): map<Id, seq<Edge>>
  {
    graph[k := EdgesOf(graph, k) + [e]]
  }

  /** The edges of one consecutive pair (a, b) of a highway's node references. */
  function EmitPair(graph: map<Id, seq<Edge>>, nodes: map<Id, Node>, a: Id, b: Id,
                    forward: bool, reverse: bool, haversine: Distance): map<Id, seq<Edge>>
  {
    if a !in nodes || b !in nodes then graph
    else
      var w := haversine(nodes[a].lat, nodes[a].lon, nodes[b].lat, nodes[b].lon);
      var g1 := if !reverse then AddEdge(graph, a, Edge(a, b, w)) else graph;
      if !forward then AddEdge(g1, b, Edge(b, a, w)) else g1
  }

  /** The table after the first `n` pairs (refs[i], refs[i+1]) of a way have been emitted. */
  function EmitPairs(graph: map<Id, seq<Edge>>, nodes: map<Id, Node>, refs: seq<Id>,
                     forward: bool, reverse: bool, haversine: Distance, n: nat): map<Id, seq<Edge>>
    requires n == 0 || n < |refs|
  {
    if n == 0 then graph
    else EmitPair(EmitPairs(graph, nodes, refs, forward, reverse, haversine, n - 1),
                  nodes, refs[n - 1], refs[n], forward, reverse, haversine)
  }

  /**
   * Reference view of emission, one key at a time: the edges that pair i of the
   * way adds to the list of `k`, in the order they are added.
   */
  function PairContribution(nodes: map<Id, Node>, refs: seq<Id>, forward: bool, reverse: bool,
                            haversine: Distance, i: nat, k: Id): seq<Edge>
    requires i + 1 < |refs|
  {
    var a, b := refs[i], refs[i + 1];
    if a !in nodes || b !in nodes then []
    else
      var w := haversine(nodes[a].lat, nodes[a].lon, nodes[b].lat, nodes[b].lon);
      (if !reverse && k == a then [Edge(a, b, w)] else [])
      + (if !forward && k == b then [Edge(b, a, w)] else [])
  }

  /** The edges that the first `n` pairs add to the list of `k`. */
  function Contributions(nodes: map<Id, Node>, refs: seq<Id>, forward: bool, reverse: bool,
                         haversine: Distance, n: nat, k: Id): seq<Edge>
    requires n == 0 || n < |refs|
  {
    if n == 0 then []
    else Contributions(nodes, refs, forward, reverse, haversine, n - 1, k)
         + PairContribution(nodes, refs, forward, reverse, haversine, n - 1, k)
  }

  // ---------------------------------------------------------------------------
  // The handler

  function OnNode(s: HandlerState, id: Id, lat: real, lon: real): HandlerState
  {
    s.(nodes := s.nodes[id := Node(id, lat, lon)])
  }

  function OnWayStart(s: HandlerState): HandlerState
  {
    s.(inWay := true, wayIsHighway := false, wayOnewayForward := false, wayOnewayReverse := false,
       wayNodeRefs := [])
  }

  function OnNd(s: HandlerState, ref: Option<Id>): HandlerState
  {
    if s.inWay && ref.Some? then s.(wayNodeRefs := s.wayNodeRefs + [ref.value]) else s
  }

  function OnTag(s: HandlerState, k: Option<string>, v: Option<string>): HandlerState
  {
    if !s.inWay then s
    else
      var s1 := if k == Some("highway") then s.(wayIsHighway := true) else s;
      if k == Some("oneway") then
        var s2 := if IsReverseValue(v) then s1.(wayOnewayReverse := true) else s1;
        if IsForwardValue(v) then s2.(wayOnewayForward := true) else s2
      else s1
  }

  /** The graph a closing way leaves behind (before `inWay` is cleared). */
  function ClosedWayGraph(s: HandlerState, haversine: Distance): map<Id, seq<Edge>>
  {
    if s.wayIsHighway && |s.wayNodeRefs| >= 2 then
      EmitPairs(s.graph, s.nodes, s.wayNodeRefs, s.wayOnewayForward, s.wayOnewayReverse, haversine,
                |s.wayNodeRefs| - 1)
    else s.graph
  }

  function OnWayEnd(s: HandlerState, haversine: Distance): HandlerState
  {
    s.(graph := ClosedWayGraph(s, haversine), inWay := false)
  }

  /** One callback of the handler. */
  function Step(s: HandlerState, ev: Event, haversine: Distance): HandlerState
  {
    match ev
    case NodeEv(id, lat, lon) => OnNode(s, id, lat, lon)
    case WayStart => OnWayStart(s)
    case Nd(ref) => OnNd(s, ref)
    case Tag(k, v) => OnTag(s, k, v)
    case WayEnd => OnWayEnd(s, haversine)
    case Other => s
  }

  /** The handler state after the events of `evs`, in document order. */
  function Run(s: HandlerState, evs: seq<Event>, haversine: Distance): HandlerState
    decreases |evs|
  {
    if evs == [] then s else Step(Run(s, evs[..|evs| - 1], haversine), evs[|evs| - 1], haversine)
  }

  /** The completion pass: every node id gets an adjacency entry, empty when it has no edges. */
  function Complete(ids: set<Id>, graph: map<Id, seq<Edge>>): (r: map<Id, seq<Edge>>)
    ensures r.Keys == graph.Keys + ids
    ensures forall k :: k in graph ==> r[k] == graph[k]
    ensures forall k :: k in ids && k !in graph ==> r[k] == []
  {
    map k | k in graph.Keys + ids :: EdgesOf(graph, k)
  }

  /** The graph built from a whole document. */
  function Build(events: seq<Event>, haversine: Distance): Graph
  {
    var s := Run(Init, events, haversine);
    Graph(s.nodes, Complete(s.nodes.Keys, s.graph))
  }

  /** The well-formedness the handler keeps between callbacks. */
  ghost predicate StateWellFormed(s: HandlerState)
  {
    NodesKeyed(s.nodes) && EdgesWellFormed(s.nodes, s.graph)
  }
}
