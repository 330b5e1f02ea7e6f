/**
 * The builder as `OSMGraphBuilder.buildGraph` writes it: a handler object whose fields are updated
 * callback by callback, and `BuildGraph`, which feeds it a document and then gives
 * every node an adjacency entry. Each method is proved against `GraphBuilderSpec`.
 */
module GraphBuilder {
  import opened Wrappers
  import opened OsmGraph
  import opened GraphBuilderSpec
  import GraphBuilderLemmas

  /** The parse handler: the two tables it fills and the state of the way being read. */
  class Handler {
    const haversine: Distance
    var nodes: map<Id, Node>
    var graph: map<Id, seq<Edge>>
    var inWay: bool
    var wayIsHighway: bool
    var wayOnewayForward: bool   // oneway=yes/true/1
    var wayOnewayReverse: bool   // oneway=-1
    var wayNodeRefs: seq<Id>

    /** The abstract value of the handler. */
    function State(): HandlerState
      reads this
    {
      HandlerState(nodes, graph, inWay, wayIsHighway, wayOnewayForward, wayOnewayReverse, wayNodeRefs)
    }

    constructor (haversine: Distance)
      ensures this.haversine == haversine && State() == Init
    {
      this.haversine := haversine;
      nodes := map[];
      graph := map[];
      inWay := false;
      wayIsHighway := false;
      wayOnewayForward := false;
      wayOnewayReverse := false;
      wayNodeRefs := [];
    }

    /** The start-element callback: node, way, nd and tag elements; any other element is ignored. */
    method StartElement(ev: Event)
      requires !ev.WayEnd?
      modifies this
      ensures State() == Step(old(State()), ev, haversine)
    {
      match ev {
        case NodeEv(id, lat, lon) =>
          nodes := nodes[id := Node(id, lat, lon)];
        case WayStart =>
          inWay := true;
          wayIsHighway := false;
          wayOnewayForward := false;
          wayOnewayReverse := false;
          wayNodeRefs := [];
        case Nd(ref) =>
          if inWay {
            if ref.Some? {
              wayNodeRefs := wayNodeRefs + [ref.value];
            }
          }
        case Tag(k, v) =>
          if inWay {
            if k == Some("highway") {
              wayIsHighway := true;
            }
            if k == Some("oneway") {
              if IsReverseValue(v) {
                wayOnewayReverse := true;
              }
              if IsForwardValue(v) {
                wayOnewayForward := true;
              }
            }
          }
        case Other =>
      }
    }

    /** The end-element callback for a way: emit the edges of a highway, then leave the way. */
    method EndElement()
      modifies this
      ensures State() == Step(old(State()), WayEnd, haversine)
    {
      if wayIsHighway && |wayNodeRefs| >= 2 {
        for i := 0 to |wayNodeRefs| - 1
          invariant nodes == old(nodes) && wayNodeRefs == old(wayNodeRefs) && inWay == old(inWay)
          invariant wayIsHighway == old(wayIsHighway)
          invariant wayOnewayForward == old(wayOnewayForward) && wayOnewayReverse == old(wayOnewayReverse)
          invariant graph == EmitPairs(old(graph), nodes, wayNodeRefs, wayOnewayForward, wayOnewayReverse,
                                       haversine, i)
        {
          var a := wayNodeRefs[i];
          var b := wayNodeRefs[i + 1];
          if a !in nodes || b !in nodes {
            continue;
          }
          var na := nodes[a];
          var nb := nodes[b];
          var w := haversine(na.lat, na.lon, nb.lat, nb.lon);
          if !wayOnewayReverse {
            graph := graph[a := EdgesOf(graph, a) + [Edge(a, b, w)]];
          }
          if !wayOnewayForward {
            graph := graph[b := EdgesOf(graph, b) + [Edge(b, a, w)]];
          }
        }
      }
      inWay := false;
    }
  }

  /**
   * Builds the graph of a document given as its parse events: the handler consumes
   * them in order, then every node without edges gets an empty adjacency list.
   * The result does not depend on the order in which the completion pass visits the nodes.
   */
  method BuildGraph(events: seq<Event>, haversine: Distance) returns (g: Graph)
    ensures g == Build(events, haversine)
    ensures ValidGraph(g)
  {
    var handler := new Handler(haversine);
    for i := 0 to |events|
      invariant handler.haversine == haversine
      invariant handler.State() == Run(Init, events[..i], haversine)
    {
      var ev := events[i];
      if ev.WayEnd? {
        handler.EndElement();
      } else {
        handler.StartElement(ev);
      }
      assert events[..i + 1][..i] == events[..i];
    }
    assert events[..|events|] == events;
    var nodes, graph := handler.nodes, handler.graph;
    ghost var parsed := graph;
    // Ensure all vertices exist in the adjacency map.
    var pending := nodes.Keys;
    while pending != {}
      invariant pending <= nodes.Keys
      invariant graph == Complete(nodes.Keys - pending, parsed)
      decreases pending
    {
      var id :| id in pending;
      if id !in graph {
        graph := graph[id := []];
      }
      pending := pending - {id};
    }
    assert nodes.Keys - pending == nodes.Keys;
    g := Graph(nodes, graph);
    GraphBuilderLemmas.BuildValid(events, haversine);
  }
}
