# OSM router: graph builder and shortest-path engine

This project models the two components of a small OpenStreetMap router that hold its logic.

**The graph builder** (`OSMGraphBuilder.buildGraph`) consumes the parse events of an OSM XML document.
- It fills a node table `id -> Node` and an adjacency table `id -> list of Edge`.
- While a `<way>` is open it records:
  - whether the way is tagged `highway`;
  - whether it is one-way forward (`oneway=yes/true/1`) or one-way reverse (`oneway=-1`);
  - its `<nd ref>` node references.
- When a highway way closes, it emits directed, weighted edges between consecutive referenced nodes that are present in the node table.
- A final pass gives every node an adjacency entry, possibly empty.

**The router** (`DijkstraRouter.shortestPath`) runs Dijkstra's search from a source and stops early at the target.
- Its priority queue uses lazy deletion: an entry is pushed on every improvement, and stale entries are skipped by a visited-set check.
- It keeps `dist` and `prev` maps and rebuilds the path by walking `prev` back from the target.

Modules:
- `Wrappers`: `Option`, for XML attributes that may be missing.
- `OsmGraph`: the records.
  - `Id` is a 64-bit id.
  - `Node` and `Edge`; a weight is a non-negative real.
  - `Graph`.
  - The predicates `EdgesWellFormed` and `ValidGraph`.
- `GraphBuilderSpec`: the handler as a state machine.
  - An `Event` datatype stands in for the XML parser's callbacks.
  - `Step` is one callback and `Run` folds `Step` over a document.
  - `EmitPairs` is the edge emission of a closing way, with `Contributions` as an independent per-key view of it.
  - `Build` is the whole construction, including the completion pass.
- `GraphBuilderLemmas`: what the callbacks and the finished build promise.
- `GraphBuilder`: the handler as a class.
  - Its mutable fields are the anonymous handler's own fields (OSMGraphBuilder.java:54-58), together with the node and adjacency tables, which in the Java code are local maps of `buildGraph` (lines 44-45) that the handler captures.
  - `StartElement` and `EndElement` are proved against `Step`.
  - `BuildGraph` feeds the events to a handler and runs the completion loop.
- `Walks`: walks through an adjacency table, their cost and node sequence, reachability, routes and shortest routes.
- `DijkstraSearch`: the search state and its invariants, together with the lemmas that establish them initially, preserve them on each poll and relaxation, and draw the conclusions at the end.
- `DijkstraRouter`: the router class, with its two tables held as constants. `ShortestPath` follows the Java method step by step, with its loops written as separate methods:
  - `InitialDistances`, the `dist` initialisation;
  - `Search`, the queue loop, with its body `Poll` and the relaxation loops `Expand` / `RelaxEdge`;
  - `Reconstruct`, the predecessor walk.

## Model

| member | source | states |
|---|---|---|
| GraphBuilderSpec.EqualsIgnoreCase | src/main/java/com/osmrouter/OSMGraphBuilder.java:94 | true exactly when both strings have the same length and every pair of characters at the same position is equal, or equal after ASCII upper- or lower-casing |
| GraphBuilderSpec.Complete | src/main/java/com/osmrouter/OSMGraphBuilder.java:133-136 | the completed table has exactly the node ids and the existing keys, keeps every existing list, and gives every new node an empty list |
| GraphBuilderSpec.IsForwardValue | src/main/java/com/osmrouter/OSMGraphBuilder.java:94 | no contract; the reference definition of an affirmative oneway value that rows ForwardValues and OnewayExamples are about |
| GraphBuilderSpec.IsReverseValue | src/main/java/com/osmrouter/OSMGraphBuilder.java:93 | no contract; the reference definition of the reverse-only oneway value that rows TagRules and OnewayExamples are about |
| GraphBuilderSpec.OnNode | src/main/java/com/osmrouter/OSMGraphBuilder.java:63-67 | no contract; the reference definition of a node event that row NodeEventLastWriteWins is about |
| GraphBuilderSpec.OnWayStart | src/main/java/com/osmrouter/OSMGraphBuilder.java:70-76 | no contract; the reference definition of a way start that row WayStartResets is about |
| GraphBuilderSpec.OnNd | src/main/java/com/osmrouter/OSMGraphBuilder.java:78-83 | no contract; the reference definition of an nd event that rows NdAppends, OutsideWayIgnored and WayRefsInDocumentOrder are about |
| GraphBuilderSpec.OnTag | src/main/java/com/osmrouter/OSMGraphBuilder.java:85-98 | no contract; the reference definition of a tag event that rows TagRules and OutsideWayIgnored are about |
| GraphBuilderSpec.AddEdge | src/main/java/com/osmrouter/OSMGraphBuilder.java:114 | no contract; `computeIfAbsent(k, new list).add(e)`, used by EmitPair |
| GraphBuilderSpec.EmitPair | src/main/java/com/osmrouter/OSMGraphBuilder.java:107-118 | no contract; the edges of one consecutive pair, the reference definition that row EmitPairsPerKey is about pair by pair |
| GraphBuilderSpec.EmitPairs | src/main/java/com/osmrouter/OSMGraphBuilder.java:106-119 | no contract; the table after the first n pairs, which EndElement's loop invariant follows and rows EmitPairsPerKey and WayEndAppends are about |
| GraphBuilderSpec.ClosedWayGraph | src/main/java/com/osmrouter/OSMGraphBuilder.java:105-120 | no contract; the table a closing way leaves, the reference definition that rows WayEndAppends, NonHighwayAddsNothing and ClosedWayWellFormed are about |
| GraphBuilderSpec.OnWayEnd | src/main/java/com/osmrouter/OSMGraphBuilder.java:104-122 | no contract; the reference definition of a way close that rows WayEndAppends, TwoNodeWay and NonHighwayAddsNothing are about |
| GraphBuilderSpec.Step | src/main/java/com/osmrouter/OSMGraphBuilder.java:61-123 | no contract; one callback, which StartElement and EndElement are proved equal to and row StepWellFormed is about |
| GraphBuilderSpec.Run | src/main/java/com/osmrouter/OSMGraphBuilder.java:126-128 | no contract; the callbacks of a whole document in order, which BuildGraph's first loop follows and rows RunWellFormed and WayRefsInDocumentOrder are about |
| GraphBuilderSpec.Build | src/main/java/com/osmrouter/OSMGraphBuilder.java:43-139 | no contract; the whole construction, which BuildGraph is proved equal to and row BuildValid is about |
| GraphBuilder.Handler.constructor | src/main/java/com/osmrouter/OSMGraphBuilder.java:44-58 | a fresh handler has empty tables, is outside any way, has every flag false and holds no refs |
| GraphBuilder.Handler.StartElement | src/main/java/com/osmrouter/OSMGraphBuilder.java:61-100 | after a node, way, nd, tag or ignored start event, the handler's fields are those of `Step` applied to its previous fields |
| GraphBuilder.Handler.EndElement | src/main/java/com/osmrouter/OSMGraphBuilder.java:103-123 | closing a way leaves the fields of `Step(old, WayEnd)`; the pair loop keeps the table equal to the first i pairs emitted |
| GraphBuilder.BuildGraph | src/main/java/com/osmrouter/OSMGraphBuilder.java:43-139 | the graph returned is `Build` of the event sequence, and it is valid |
| GraphBuilderLemmas.NodeEventLastWriteWins | src/main/java/com/osmrouter/OSMGraphBuilder.java:63-67 | a node event inserts or overwrites the entry of its id with that node; every other entry and every other field is unchanged |
| GraphBuilderLemmas.WayStartResets | src/main/java/com/osmrouter/OSMGraphBuilder.java:70-76 | a way start sets inWay, clears the three flags and the refs, and leaves both tables alone |
| GraphBuilderLemmas.OutsideWayIgnored | src/main/java/com/osmrouter/OSMGraphBuilder.java:78-98 | outside a way, nd and tag events leave the whole state unchanged |
| GraphBuilderLemmas.NdAppends | src/main/java/com/osmrouter/OSMGraphBuilder.java:78-83 | inside a way, an nd with a ref appends exactly that id to the refs; an nd without a ref changes nothing |
| GraphBuilderLemmas.WayRefsInDocumentOrder | src/main/java/com/osmrouter/OSMGraphBuilder.java:78-83 | across any run of events inside one way, the refs grow by the nd refs of those events in document order, and the way stays open |
| GraphBuilderLemmas.TagRules | src/main/java/com/osmrouter/OSMGraphBuilder.java:85-98 | inside a way: `highway` with any value raises wayIsHighway; `oneway=-1` raises reverse; an affirmative oneway value raises forward; flags are never lowered and nothing else changes |
| GraphBuilderLemmas.ForwardValues | src/main/java/com/osmrouter/OSMGraphBuilder.java:94 | a oneway value counts as forward exactly when it is `yes` or `true` with each letter in either case, or exactly `1` |
| GraphBuilderLemmas.OnewayExamples | src/main/java/com/osmrouter/OSMGraphBuilder.java:92-95 | `yes`, `YES`, `True` and `1` are forward; `-1`, `no` and a missing value are not; `-1` and only `-1` is reverse |
| GraphBuilderLemmas.NonHighwayAddsNothing | src/main/java/com/osmrouter/OSMGraphBuilder.java:105-121 | closing a way that is not a highway, or has fewer than two refs, only clears inWay |
| GraphBuilderLemmas.WayEndAppends | src/main/java/com/osmrouter/OSMGraphBuilder.java:105-121 | closing a highway only appends: every key survives, each list keeps its old contents as a prefix followed by the way's contributions to that key, and only the graph and inWay change |
| GraphBuilderLemmas.EmitPairsPerKey | src/main/java/com/osmrouter/OSMGraphBuilder.java:106-119 | after the first n pairs, each key's list is its old list followed by the pairs' contributions to it, and a key is present exactly when it was before or gained an edge |
| GraphBuilderLemmas.PairEdgesEmitted | src/main/java/com/osmrouter/OSMGraphBuilder.java:106-119 | for a pair (a, b) with both ends known: a->b with weight w reaches a's list unless the way is reverse-only, and b->a with the same w reaches b's list unless it is forward-only |
| GraphBuilderLemmas.ContributionsFromPairs | src/main/java/com/osmrouter/OSMGraphBuilder.java:106-119 | every contributed edge comes from some pair with both ends known, and is a->b on a's list (not reverse-only) or b->a on b's list (not forward-only); a pair with an unknown end contributes nothing |
| GraphBuilderLemmas.TwoNodeWay | src/main/java/com/osmrouter/OSMGraphBuilder.java:106-119 | a two-node highway a != b appends a->b unless reverse-only and b->a unless forward-only, both with the same weight |
| GraphBuilderLemmas.ContributionsWellFormed | src/main/java/com/osmrouter/OSMGraphBuilder.java:109-117 | every edge a way adds to the list of k leaves k and ends at a known node, and only known nodes receive edges |
| GraphBuilderLemmas.ClosedWayWellFormed | src/main/java/com/osmrouter/OSMGraphBuilder.java:109-117 | closing a way keeps every adjacency key a known node and every stored edge leaving its key towards a known node |
| GraphBuilderLemmas.StepWellFormed | src/main/java/com/osmrouter/OSMGraphBuilder.java:61-123 | every callback preserves that nodes are stored under their own ids and that the adjacency table is well formed |
| GraphBuilderLemmas.RunWellFormed | src/main/java/com/osmrouter/OSMGraphBuilder.java:126-128 | parsing a whole document preserves the same well-formedness |
| GraphBuilderLemmas.BuildValid | src/main/java/com/osmrouter/OSMGraphBuilder.java:133-138 | the built graph is valid: its adjacency key set equals its node key set, nodes are keyed by id, and every edge leaves its key towards a node |
| DijkstraRouter.DijkstraRouter.constructor | src/main/java/com/osmrouter/DijkstraRouter.java:9-12 | the router holds the given tables, which no method changes |
| DijkstraRouter.DijkstraRouter.ShortestPath | src/main/java/com/osmrouter/DijkstraRouter.java:14-58 | [x] when source = target = x; [] when they differ and either is absent; for present ids, [] exactly when the target is unreachable; otherwise a route that starts at the source, ends at the target, uses an edge per hop and weighs no more than any walk between them; at most 1 + (number of edges) pushes |
| DijkstraRouter.DijkstraRouter.InitialDistances | src/main/java/com/osmrouter/DijkstraRouter.java:18-21 | the source is at 0, every other node at infinity, and the map has one key per adjacency key plus the source |
| DijkstraRouter.DijkstraRouter.Search | src/main/java/com/osmrouter/DijkstraRouter.java:23-45 | the search invariant holds at exit; if the target was not settled it is unreachable and has no predecessor; pushes are bounded by 1 + (number of edges) |
| DijkstraRouter.DijkstraRouter.Poll | src/main/java/com/osmrouter/DijkstraRouter.java:28-36 | one iteration keeps the invariant, reports only a settled target, lowers the queue-size-plus-remaining-pushes measure and lengthens no distance |
| DijkstraRouter.DijkstraRouter.Expand | src/main/java/com/osmrouter/DijkstraRouter.java:35-44 | after relaxing every edge of the settled node, or none when it has no list, the invariant holds again, with one push per improving edge at most and no distance lengthened |
| DijkstraRouter.DijkstraRouter.RelaxEdge | src/main/java/com/osmrouter/DijkstraRouter.java:38-43 | relaxing one edge keeps the mid-expansion invariant for the next edge, lengthens no distance and pushes at most one entry |
| DijkstraRouter.DijkstraRouter.Reconstruct | src/main/java/com/osmrouter/DijkstraRouter.java:49-57 | the predecessor walk from a settled target ends at the source, and the ids collected form a shortest route from source to target |
| DijkstraSearch.MinExists | src/main/java/com/osmrouter/DijkstraRouter.java:29 | a non-empty queue has an entry no other entry is smaller than |
| DijkstraSearch.DistinctDegreeBound | src/main/java/com/osmrouter/DijkstraRouter.java:28-34 | the summed out-degree of distinct settled nodes is at most the total number of edges, which bounds the pushes |
| DijkstraSearch.Initial | src/main/java/com/osmrouter/DijkstraRouter.java:18-26 | the initial distances, the empty predecessor map, a queue holding only (source, 0) and an empty visited set satisfy the loop invariant |
| DijkstraSearch.FrontierBound | src/main/java/com/osmrouter/DijkstraRouter.java:28-45 | every walk from the source to an unsettled node weighs at least some queued entry |
| DijkstraSearch.PopStale | src/main/java/com/osmrouter/DijkstraRouter.java:32 | discarding an entry of a settled node keeps the invariant |
| DijkstraSearch.PopSettles | src/main/java/com/osmrouter/DijkstraRouter.java:29-33 | the minimal entry of an unsettled node carries its current distance, and no walk to that node is lighter |
| DijkstraSearch.PopFresh | src/main/java/com/osmrouter/DijkstraRouter.java:29-33 | settling a polled unsettled node starts its expansion with the invariant in place |
| DijkstraSearch.RelaxImproves | src/main/java/com/osmrouter/DijkstraRouter.java:37-43 | an improving relaxation targets an unsettled node, lengthens no distance, and records prev[v] = u and dist[v] = dist[u] + w for the edge u->v used |
| DijkstraSearch.RelaxSkips | src/main/java/com/osmrouter/DijkstraRouter.java:39 | an edge that does not improve its target is already relaxed |
| DijkstraSearch.ExpandDone | src/main/java/com/osmrouter/DijkstraRouter.java:35-44 | once all edges of the settled node are relaxed, or it has no list, the loop invariant holds again |
| DijkstraSearch.Exhausted | src/main/java/com/osmrouter/DijkstraRouter.java:28-47 | when the queue empties before the target is settled, no walk reaches the target and it has no predecessor |
| Walks.Prepend | src/main/java/com/osmrouter/DijkstraRouter.java:53-55 | putting the edge out of the predecessor in front of a walk gives a walk from the predecessor, with the same end, the edge's weight added to the cost, and the predecessor added at the front of its nodes |
| Walks.WalkIsRoute | src/main/java/com/osmrouter/DijkstraRouter.java:49-57 | the node sequence of a walk starts at its start and ends at its end, and each hop is an edge of the list of the node it leaves |

## Left out

- The XML parser, the file read and the exception wrapping (OSMGraphBuilder.java:47-51, 126-131) are not modelled. A document is a sequence of `Event`s whose attributes are already typed. A missing `ref`, `k` or `v` is `None`, and the `Long.parseLong` / `Double.parseDouble` failures do not arise.
- End events other than `</way>` are not modelled as events. The handler ignores them (line 104), and the `Other` event has the same effect.
- `GeoUtils.haversineMeters` is not part of this model. It is the parameter `haversine`, any function returning a non-negative weight. Properties of the real great-circle formula, such as symmetry, are therefore not available.
- IEEE doubles are modelled as reals and `Double.POSITIVE_INFINITY` as `Infinity`. Rounding, NaN and overflow of `du + weight` are not modelled.
- The `doubleToLongBits` packing of queue entries is modelled as an `(id, dist)` pair.
- The priority queue is a multiset, and polling takes any entry of minimal distance. `java.util.PriorityQueue` breaks ties in an order no one relies on, so the model proves the results hold for every tie-break.
- `equalsIgnoreCase` is modelled with ASCII case mapping only. Java also folds a few non-ASCII characters (for example U+017F or U+212A, with `s` and `k`), which the model does not.
- `App.java` (HTTP routes, serialisation, the nearest-node scan) is not part of this model.
- ShortestPath: the Java method is one body. The model splits its loops and loop bodies into `InitialDistances`, `Search`, `Poll`, `Expand`, `RelaxEdge` and `Reconstruct`, which run the same steps in the same order.
- The ghost predecessor edges `via`, the settling order and its `rank` map, and the push counter exist for the proof only. The Java program keeps just `dist`, `prev`, the queue and the visited set, which the model keeps as real state too.
- Search: "no distance ever lengthens" is stated relative to the initial distances, and for each poll (`Poll`) and each relaxation (`RelaxEdge`). There is no separate lemma spanning two arbitrary iterations.
- The `cur == null` bail-out of the predecessor walk (DijkstraRouter.java:54) is not modelled as a branch. `Reconstruct` proves it unreachable: a settled node other than the source always has a predecessor.
- The `nodes` field of the router is stored but, as in the source, never read.
