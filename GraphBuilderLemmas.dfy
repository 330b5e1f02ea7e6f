/** What the handler's callbacks and the finished build promise. */
module GraphBuilderLemmas {
  import opened Wrappers
  import opened OsmGraph
  import opened GraphBuilderSpec

  // ---------------------------------------------------------------------------
  // Single callbacks

  /** A node event inserts or overwrites the entry of its id and changes nothing else. */
  lemma NodeEventLastWriteWins(s: HandlerState, id: Id, lat: real, lon: real, haversine: Distance)
    ensures var r := Step(s, NodeEv(id, lat, lon), haversine);
      && r.nodes.Keys == s.nodes.Keys + {id}
      && r.nodes[id] == Node(id, lat, lon)
      && (forall k :: k in s.nodes && k != id ==> r.nodes[k] == s.nodes[k])
      && r == s.(nodes := r.nodes)
  {
  }

  /** A way start clears the accumulator and enters the way; the tables do not change. */
  lemma WayStartResets(s: HandlerState, haversine: Distance)
    ensures var r := Step(s, WayStart, haversine);
      && r.inWay
      && !r.wayIsHighway && !r.wayOnewayForward && !r.wayOnewayReverse
      && r.wayNodeRefs == []
      && r.nodes == s.nodes && r.graph == s.graph
  {
  }

  /** Outside a way, `nd` and `tag` events change nothing. */
  lemma OutsideWayIgnored(s: HandlerState, ref: Option<Id>, k: Option<string>, v: Option<string>,
                          haversine: Distance)
    requires !s.inWay
    ensures Step(s, Nd(ref), haversine) == s
    ensures Step(s, Tag(k, v), haversine) == s
  {
  }

  /** Inside a way, an `nd` with a ref appends exactly that id; one without a ref changes nothing. */
  lemma NdAppends(s: HandlerState, ref: Option<Id>, haversine: Distance)
    requires s.inWay
    ensures var r := Step(s, Nd(ref), haversine);
      r == if ref.Some? then s.(wayNodeRefs := s.wayNodeRefs + [ref.value]) else s
  {
  }

  /**
   * Inside a way, a tag sets `wayIsHighway` when its key is `highway`, sets
   * reverse-only for `oneway=-1` and forward-only for an affirmative `oneway`
   * value. Flags are only ever raised, and nothing else changes.
   */
  lemma TagRules(s: HandlerState, k: Option<string>, v: Option<string>, haversine: Distance)
    requires s.inWay
    ensures var r := Step(s, Tag(k, v), haversine);
      && r.wayIsHighway == (s.wayIsHighway || k == Some("highway"))
      && r.wayOnewayReverse == (s.wayOnewayReverse || (k == Some("oneway") && v == Some("-1")))
      && r.wayOnewayForward == (s.wayOnewayForward || (k == Some("oneway") && IsForwardValue(v)))
      && r == s.(wayIsHighway := r.wayIsHighway, wayOnewayForward := r.wayOnewayForward,
                 wayOnewayReverse := r.wayOnewayReverse)
  {
  }

  /** A case variant of a lower-case ASCII word: each letter as written or in upper case. */
  ghost predicate CaseVariant(v: string, word: string)
  {
    |v| == |word| && forall i :: 0 <= i < |v| ==> v[i] == word[i] || v[i] == ToUpperAscii(word[i])
  }

  lemma CharIgnoringCase(x: char, c: char)
    requires 'a' <= c <= 'z'
    ensures CharEqualsIgnoreCase(c, x) <==> x == c || x == ToUpperAscii(c)
  {
  }

  lemma {:induction false} IgnoringCaseIsVariant(word: string, v: string)
    requires forall i :: 0 <= i < |word| ==> 'a' <= word[i] <= 'z'
    ensures EqualsIgnoreCase(word, v) <==> CaseVariant(v, word)
  {
    if |word| == |v| {
      forall i | 0 <= i < |v| ensures CharEqualsIgnoreCase(word[i], v[i]) <==> v[i] == word[i] || v[i] == ToUpperAscii(word[i]) {
        CharIgnoringCase(v[i], word[i]);
      }
    }
  }

  /** The affirmative `oneway` values: any capitalisation of `yes` or `true`, or exactly `1`. */
  lemma ForwardValues(v: string)
    ensures IsForwardValue(Some(v)) <==> CaseVariant(v, "yes") || CaseVariant(v, "true") || v == "1"
  {
    IgnoringCaseIsVariant("yes", v);
    IgnoringCaseIsVariant("true", v);
  }

  /** Some values the tag rules classify, as the Java comments on the handler's oneway fields name them. */
  lemma OnewayExamples()
    ensures IsForwardValue(Some("yes")) && IsForwardValue(Some("YES")) && IsForwardValue(Some("True"))
    ensures IsForwardValue(Some("1")) && !IsForwardValue(Some("-1")) && !IsForwardValue(Some("no"))
    ensures !IsForwardValue(None) && IsReverseValue(Some("-1")) && !IsReverseValue(Some("1"))
  {
    ForwardValues("YES");
    ForwardValues("True");
    ForwardValues("no");
    ForwardValues("-1");
  }

  // ---------------------------------------------------------------------------
  // Emission when a way closes

  /**
   * Emitting the first `n` pairs appends, to each key's list, exactly the edges the
   * reference view assigns to that key; a key appears only if it had a list or gained an edge.
   */
  lemma EmitPairsPerKey(graph: map<Id, seq<Edge>>, nodes: map<Id, Node>, refs: seq<Id>,
                        forward: bool, reverse: bool, haversine: Distance, n: nat, k: Id)
    requires n == 0 || n < |refs|
    ensures var r := EmitPairs(graph, nodes, refs, forward, reverse, haversine, n);
      && EdgesOf(r, k) == EdgesOf(graph, k) + Contributions(nodes, refs, forward, reverse, haversine, n, k)
      && (k in r <==> k in graph || Contributions(nodes, refs, forward, reverse, haversine, n, k) != [])
  {
    EmitPairsEdges(graph, nodes, refs, forward, reverse, haversine, n, k);
    EmitPairsKeys(graph, nodes, refs, forward, reverse, haversine, n, k);
  }

  lemma {:induction false} EmitPairsEdges(graph: map<Id, seq<Edge>>, nodes: map<Id, Node>, refs: seq<Id>,
                                          forward: bool, reverse: bool, haversine: Distance, n: nat, k: Id)
    requires n == 0 || n < |refs|
    ensures EdgesOf(EmitPairs(graph, nodes, refs, forward, reverse, haversine, n), k)
         == EdgesOf(graph, k) + Contributions(nodes, refs, forward, reverse, haversine, n, k)
  {
    if n > 0 {
      var g := EmitPairs(graph, nodes, refs, forward, reverse, haversine, n - 1);
      var c := Contributions(nodes, refs, forward, reverse, haversine, n - 1, k);
      var p := PairContribution(nodes, refs, forward, reverse, haversine, n - 1, k);
      assert EdgesOf(g, k) == EdgesOf(graph, k) + c by {
        EmitPairsEdges(graph, nodes, refs, forward, reverse, haversine, n - 1, k);
      }
      assert EdgesOf(EmitPair(g, nodes, refs[n - 1], refs[n], forward, reverse, haversine), k) == EdgesOf(g, k) + p by {
        EmitPairPerKey(g, nodes, refs, forward, reverse, haversine, n - 1, k);
      }
      AppendAssoc(EdgesOf(graph, k), c, p);
    } else {
      assert EdgesOf(graph, k) + [] == EdgesOf(graph, k);
    }
  }

  lemma {:induction false} EmitPairsKeys(graph: map<Id, seq<Edge>>, nodes: map<Id, Node>, refs: seq<Id>,
                                         forward: bool, reverse: bool, haversine: Distance, n: nat, k: Id)
    requires n == 0 || n < |refs|
    ensures k in EmitPairs(graph, nodes, refs, forward, reverse, haversine, n)
        <==> k in graph || Contributions(nodes, refs, forward, reverse, haversine, n, k) != []
  {
    if n > 0 {
      var g := EmitPairs(graph, nodes, refs, forward, reverse, haversine, n - 1);
      var c := Contributions(nodes, refs, forward, reverse, haversine, n - 1, k);
      var p := PairContribution(nodes, refs, forward, reverse, haversine, n - 1, k);
      assert k in g <==> k in graph || c != [] by {
        EmitPairsKeys(graph, nodes, refs, forward, reverse, haversine, n - 1, k);
      }
      assert k in EmitPair(g, nodes, refs[n - 1], refs[n], forward, reverse, haversine) <==> k in g || p != [] by {
        EmitPairPerKey(g, nodes, refs, forward, reverse, haversine, n - 1, k);
      }
      assert |c + p| == |c| + |p|;
    }
  }

  lemma AppendAssoc<T>(a: seq<T>, b: seq<T>, c: seq<T>)
    ensures a + b + c == a + (b + c)
  {
  }

  /** One pair appends to the list of `k` exactly its contribution to `k`. */
  lemma EmitPairPerKey(graph: map<Id, seq<Edge>>, nodes: map<Id, Node>, refs: seq<Id>,
                       forward: bool, reverse: bool, haversine: Distance, i: nat, k: Id)
    requires i + 1 < |refs|
    ensures var r := EmitPair(graph, nodes, refs[i], refs[i + 1], forward, reverse, haversine);
      var p := PairContribution(nodes, refs, forward, reverse, haversine, i, k);
      && EdgesOf(r, k) == EdgesOf(graph, k) + p
      && (k in r <==> k in graph || p != [])
  {
    var a, b := refs[i], refs[i + 1];
    if a in nodes && b in nodes {
      var w := haversine(nodes[a].lat, nodes[a].lon, nodes[b].lat, nodes[b].lon);
      var g1 := if !reverse then AddEdge(graph, a, Edge(a, b, w)) else graph;
      var pa: seq<Edge> := if !reverse && k == a then [Edge(a, b, w)] else [];
      var pb: seq<Edge> := if !forward && k == b then [Edge(b, a, w)] else [];
      assert EdgesOf(g1, k) == EdgesOf(graph, k) + pa;
      assert (k in g1 <==> k in graph || pa != []);
      assert EdgesOf(graph, k) + pa + pb == EdgesOf(graph, k) + (pa + pb);
    }
  }

  /** Every edge a way adds to the list of `k` leaves `k` and ends at a known node. */
  lemma {:induction false} ContributionsWellFormed(nodes: map<Id, Node>, refs: seq<Id>, forward: bool,
                                                   reverse: bool, haversine: Distance, n: nat, k: Id)
    requires n == 0 || n < |refs|
    ensures var c := Contributions(nodes, refs, forward, reverse, haversine, n, k);
      c != [] ==> k in nodes
    ensures forall e :: e in Contributions(nodes, refs, forward, reverse, haversine, n, k) ==>
      e.from == k && e.to in nodes
  {
    if n > 0 {
      ContributionsWellFormed(nodes, refs, forward, reverse, haversine, n - 1, k);
    }
  }

  /**
   * Pair i of a way contributes a->b to the list of a unless the way is reverse-only,
   * and b->a (with the same weight) to the list of b unless it is forward-only,
   * provided both endpoints are known nodes.
   */
  lemma {:induction false} PairEdgesEmitted(nodes: map<Id, Node>, refs: seq<Id>, forward: bool,
                                            reverse: bool, haversine: Distance, n: nat, i: nat)
    requires n < |refs| && i < n
    ensures var a, b := refs[i], refs[i + 1];
      a in nodes && b in nodes ==>
        var w := haversine(nodes[a].lat, nodes[a].lon, nodes[b].lat, nodes[b].lon);
        && (!reverse ==> Edge(a, b, w) in Contributions(nodes, refs, forward, reverse, haversine, n, a))
        && (!forward ==> Edge(b, a, w) in Contributions(nodes, refs, forward, reverse, haversine, n, b))
  {
    var a, b := refs[i], refs[i + 1];
    var ca := Contributions(nodes, refs, forward, reverse, haversine, n - 1, a);
    var cb := Contributions(nodes, refs, forward, reverse, haversine, n - 1, b);
    var pa := PairContribution(nodes, refs, forward, reverse, haversine, n - 1, a);
    var pb := PairContribution(nodes, refs, forward, reverse, haversine, n - 1, b);
    assert Contributions(nodes, refs, forward, reverse, haversine, n, a) == ca + pa;
    assert Contributions(nodes, refs, forward, reverse, haversine, n, b) == cb + pb;
    if a in nodes && b in nodes {
      var w := haversine(nodes[a].lat, nodes[a].lon, nodes[b].lat, nodes[b].lon);
      if i < n - 1 {
        PairEdgesEmitted(nodes, refs, forward, reverse, haversine, n - 1, i);
        assert !reverse ==> Edge(a, b, w) in ca;
        assert !forward ==> Edge(b, a, w) in cb;
      } else {
        assert !reverse ==> pa[0] == Edge(a, b, w);
        assert !forward ==> pb[|pb| - 1] == Edge(b, a, w);
      }
    }
  }

  /**
   * Conversely, every edge a way adds comes from one of its pairs: it is a->b
   * appended to the list of a for a way that is not reverse-only, or b->a appended
   * to the list of b for a way that is not forward-only, with both ends known nodes.
   */
  lemma {:induction false} ContributionsFromPairs(nodes: map<Id, Node>, refs: seq<Id>, forward: bool,
                                                  reverse: bool, haversine: Distance, n: nat, k: Id, e: Edge)
    requires n == 0 || n < |refs|
    requires e in Contributions(nodes, refs, forward, reverse, haversine, n, k)
    ensures exists i :: 0 <= i < n && PairEdge(nodes, refs, forward, reverse, haversine, i, k, e)
  {
    var c := Contributions(nodes, refs, forward, reverse, haversine, n - 1, k);
    if e in c {
      ContributionsFromPairs(nodes, refs, forward, reverse, haversine, n - 1, k, e);
    } else {
      assert PairEdge(nodes, refs, forward, reverse, haversine, n - 1, k, e);
    }
  }

  ghost predicate PairEdge(nodes: map<Id, Node>, refs: seq<Id>, forward: bool, reverse: bool,
                           haversine: Distance, i: nat, k: Id, e: Edge)
  {
    && i + 1 < |refs|
    && var a, b := refs[i], refs[i + 1];
    && a in nodes && b in nodes
    && var w := haversine(nodes[a].lat, nodes[a].lon, nodes[b].lat, nodes[b].lon);
    || (!reverse && k == a && e == Edge(a, b, w))
    || (!forward && k == b && e == Edge(b, a, w))
  }

  /** A way that is not a highway, or has fewer than two refs, adds no edges when it closes. */
  lemma NonHighwayAddsNothing(s: HandlerState, haversine: Distance)
    requires !s.wayIsHighway || |s.wayNodeRefs| < 2
    ensures Step(s, WayEnd, haversine) == s.(inWay := false)
  {
  }

  /**
   * Closing a way only appends: every earlier list survives as a prefix, and the
   * appended part of each list is exactly what that way's pairs contribute to it.
   */
  lemma WayEndAppends(s: HandlerState, haversine: Distance, k: Id)
    requires s.wayIsHighway && |s.wayNodeRefs| >= 2
    ensures var r := Step(s, WayEnd, haversine);
      && r == s.(graph := r.graph, inWay := false)
      && s.graph.Keys <= r.graph.Keys
      && EdgesOf(r.graph, k) == EdgesOf(s.graph, k)
           + Contributions(s.nodes, s.wayNodeRefs, s.wayOnewayForward, s.wayOnewayReverse, haversine,
                           |s.wayNodeRefs| - 1, k)
  {
    var refs, fw, rv := s.wayNodeRefs, s.wayOnewayForward, s.wayOnewayReverse;
    var g: map<Id, seq<Edge>> := ClosedWayGraph(s, haversine);
    assert g == EmitPairs(s.graph, s.nodes, refs, fw, rv, haversine, |refs| - 1);
    EmitPairsEdges(s.graph, s.nodes, refs, fw, rv, haversine, |refs| - 1, k);
    forall j | j in s.graph
      ensures j in g
    {
      EmitPairsKeys(s.graph, s.nodes, refs, fw, rv, haversine, |refs| - 1, j);
    }
  }

  /**
   * A two-node highway between known nodes a != b: with no oneway tag it adds one edge
   * each way with the same weight, forward-only only a->b, reverse-only only b->a.
   */
  lemma TwoNodeWay(s: HandlerState, a: Id, b: Id, haversine: Distance)
    requires s.wayIsHighway && s.wayNodeRefs == [a, b] && a != b && a in s.nodes && b in s.nodes
    ensures var r := Step(s, WayEnd, haversine);
      var w := haversine(s.nodes[a].lat, s.nodes[a].lon, s.nodes[b].lat, s.nodes[b].lon);
      && EdgesOf(r.graph, a) == EdgesOf(s.graph, a) + (if s.wayOnewayReverse then [] else [Edge(a, b, w)])
      && EdgesOf(r.graph, b) == EdgesOf(s.graph, b) + (if s.wayOnewayForward then [] else [Edge(b, a, w)])
  {
    WayEndAppends(s, haversine, a);
    WayEndAppends(s, haversine, b);
  }

  // ---------------------------------------------------------------------------
  // Whole documents

  /** Closing a way keeps every stored edge leaving its key and ending at a known node. */
  lemma ClosedWayWellFormed(s: HandlerState, haversine: Distance)
    requires StateWellFormed(s)
    ensures EdgesWellFormed(s.nodes, ClosedWayGraph(s, haversine))
  {
    if s.wayIsHighway && |s.wayNodeRefs| >= 2 {
      var g: map<Id, seq<Edge>> := ClosedWayGraph(s, haversine);
      var refs, n := s.wayNodeRefs, |s.wayNodeRefs| - 1;
      var fw, rv := s.wayOnewayForward, s.wayOnewayReverse;
      forall k | k in g
        ensures k in s.nodes && forall e :: e in g[k] ==> e.from == k && e.to in s.nodes
      {
        EmitPairsPerKey(s.graph, s.nodes, refs, fw, rv, haversine, n, k);
        ContributionsWellFormed(s.nodes, refs, fw, rv, haversine, n, k);
        assert g[k] == EdgesOf(s.graph, k) + Contributions(s.nodes, refs, fw, rv, haversine, n, k);
      }
    }
  }

  /** Every callback keeps the tables well formed. */
  lemma StepWellFormed(s: HandlerState, ev: Event, haversine: Distance)
    requires StateWellFormed(s)
    ensures StateWellFormed(Step(s, ev, haversine))
  {
    if ev.WayEnd? {
      ClosedWayWellFormed(s, haversine);
    }
  }

  lemma {:induction false} RunWellFormed(s: HandlerState, evs: seq<Event>, haversine: Distance)
    requires StateWellFormed(s)
    ensures StateWellFormed(Run(s, evs, haversine))
    decreases |evs|
  {
    if evs != [] {
      RunWellFormed(s, evs[..|evs| - 1], haversine);
      StepWellFormed(Run(s, evs[..|evs| - 1], haversine), evs[|evs| - 1], haversine);
    }
  }

  /**
   * The graph of any document is valid: nodes are keyed by their ids, the adjacency
   * key set equals the node-table key set, and every edge leaves its key and ends at a node.
   */
  lemma BuildValid(events: seq<Event>, haversine: Distance)
    ensures ValidGraph(Build(events, haversine))
  {
    RunWellFormed(Init, events, haversine);
  }

  /** Events inside a way that neither start nor end a way. */
  ghost predicate WithinWay(evs: seq<Event>)
  {
    forall i :: 0 <= i < |evs| ==> !evs[i].WayStart? && !evs[i].WayEnd?
  }

  /** The ref one event contributes to the way being read. */
  function NdRef(ev: Event): seq<Id>
  {
    if ev.Nd? && ev.ref.Some? then [ev.ref.value] else []
  }

  /** The refs of the `nd` events of `evs`, in document order. */
  function NdRefs(evs: seq<Event>): seq<Id>
    decreases |evs|
  {
    if evs == [] then [] else NdRefs(evs[..|evs| - 1]) + NdRef(evs[|evs| - 1])
  }

  lemma StepWithinWay(s: HandlerState, ev: Event, haversine: Distance)
    requires s.inWay && !ev.WayStart? && !ev.WayEnd?
    ensures Step(s, ev, haversine).inWay
    ensures Step(s, ev, haversine).wayNodeRefs == s.wayNodeRefs + NdRef(ev)
  {
  }

  /** Inside a way, the node references accumulate in document order. */
  lemma {:induction false} WayRefsInDocumentOrder(s: HandlerState, evs: seq<Event>, haversine: Distance)
    requires s.inWay && WithinWay(evs)
    ensures var r := Run(s, evs, haversine);
      r.inWay && r.wayNodeRefs == s.wayNodeRefs + NdRefs(evs)
    decreases |evs|
  {
    if evs != [] {
      var front, last := evs[..|evs| - 1], evs[|evs| - 1];
      assert WithinWay(front) by {
        forall i | 0 <= i < |front| ensures !front[i].WayStart? && !front[i].WayEnd? {
          assert front[i] == evs[i];
        }
      }
      var r0 := Run(s, front, haversine);
      assert r0.inWay && r0.wayNodeRefs == s.wayNodeRefs + NdRefs(front) by {
        WayRefsInDocumentOrder(s, front, haversine);
      }
      StepWithinWay(r0, last, haversine);
      AppendAssoc(s.wayNodeRefs, NdRefs(front), NdRef(last));
    }
  }
}
