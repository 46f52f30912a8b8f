# graph-ts in Dafny

A model of the core of graph-ts, a small TypeScript library for directed graphs whose
nodes and edges live in two string-keyed JavaScript objects. An edge carries `src`,
`dst` and `metadata`. The model covers:

- the accessors, queries, mutations and transforms of `src/graph.ts`, as the class
  `KeyedGraph.Graph`: `InsertEdge`, `InsertNode`, `RemoveEdge`, `MutateNode` and
  `Merge` update its `nodes` and `edges` fields in place and return the graph itself;
  `MapNodes`, `MapEdges` and `MapEdgeMetadata` write into the `output` graph they are
  given and return it; `TransformNodeKeys` and `TransformEdgeKeys` return a fresh graph;
- the dependency walk `resolveDependencies`, as the pure functions `Visit` and
  `VisitEdges`, and as the class `Resolver`, whose `Helper` mutates the shared
  `resolved` set and `steps` array like the source's closure and is proved to compute
  what `Visit` computes;
- the two free query functions of `src/index.ts` over a plain `{ nodes, edges }` value
  (`PlainGraph`);
- `setDifference` of `src/setDifference.ts` (`SetOps`).

A JavaScript object used as a dictionary is `Dicts.Dict<V>`: an association list whose
keys are distinct and in insertion order, because `Object.keys` enumerates in that
order and the source's loops and `find` depend on it. Assigning to a present key keeps
its position, assigning to a new key appends it, and `delete` drops the entry. A
JavaScript `Set` is a duplicate-free sequence in insertion order.

The walk's main theorems are `Resolve` and `ResolveClosed`:

- the last step is the start node's;
- no node has two steps;
- each step lists its node's outgoing edges in the graph's order;
- an edge is flagged `beginsCycle` exactly when its destination has no earlier step;
- every edge of every step leads to a node that has a step.

`Fixtures` reproduces the expected results of the two tests of `tests/graph-test.ts`
through the `src/index.ts` query functions, and the walk on the test graph. The tests
call the `src/graph.ts` functions on a fixture that has only `nodes` and `edges`, which
would throw at `Object.keys(graph._edges)` (src/graph.ts:53 and src/graph.ts:68).

## Model

| member | source | states |
|---|---|---|
| Dicts.Keys | src/graph.ts:53 | `Object.keys`: one key per entry, in entry order |
| Dicts.Get | src/graph.ts:25 | a lookup finds a value exactly when the key is present, and finds the value stored under it |
| Dicts.Put | src/graph.ts:148 | after `d[k] = v`, `k` holds `v` and every other key holds what it held before |
| Dicts.PutKeys | src/graph.ts:148 | assigning keeps the key order when the key is present, and appends the key otherwise |
| Dicts.PutDistinct | src/graph.ts:148 | assigning keeps the keys distinct |
| Dicts.PutPresent | src/graph.ts:148 | assigning an entry that is already present changes nothing |
| Dicts.PutNew | src/graph.ts:55 | assigning a key that is not present appends the entry at the end |
| Dicts.Remove | src/graph.ts:165 | after `delete d[k]`, `k` is absent, every other key keeps its value, and the rest keep their order; deleting an absent key changes nothing |
| Dicts.Filter | src/graph.ts:95 | lodash `pickBy`: exactly the entries whose value passes the predicate, in the original order |
| Dicts.FilterStep | src/graph.ts:53-57 | one turn of the query loop either skips the entry or appends it, since its key is new to the result |
| Dicts.FindKey | src/graph.ts:81-82 | `Object.keys(d).find(...)`: None exactly when no value passes; otherwise the key of the first value that passes |
| Dicts.Overlay | src/graph.ts:186-187 | the assignment loop of mapNodes, mapEdges and merge (also src/graph.ts:239-246): it keeps distinct keys distinct; what each key holds afterwards is stated by OverlayGet, and the key order by OverlayKeys |
| Dicts.OverlayGet | src/graph.ts:238-246 | after assigning every entry of `d` into `base`, a key of `d` holds `d`'s value and any other key holds `base`'s |
| Dicts.OverlayGetLast | src/graph.ts:238-246 | assigning entries in order when they may repeat a key: the last entry under a key wins, and `base` answers for a key no entry has |
| Dicts.OverlayKeys | src/graph.ts:238-246 | after assigning `d` into `base`, the keys are `base`'s followed by `d`'s new keys in `d`'s order |
| Dicts.OverlayContained | src/graph.ts:238-246 | assigning entries already present in `base` leaves `base` unchanged |
| Dicts.MapValues | src/graph.ts:214 | lodash `mapValues`: the same keys in the same order; what each key holds is stated by MapValuesGet |
| Dicts.MapValuesGet | src/graph.ts:214-218 | lodash `mapValues`: a key holds `f` of its old value, and no key is added |
| Dicts.MappedLookup | src/graph.ts:186-187 | after assigning `f` of every value of `d` into `base`, a key of `d` holds `f` of its value and any other key keeps `base`'s value |
| Dicts.MapValuesRoundTrip | src/graph.ts:214-218 | mapping the values with `g` undoes mapping them with `f` when `g` inverts `f` |
| Dicts.MapKeys | src/graph.ts:213 | lodash `mapKeys` (also src/graph.ts:229): the result has distinct keys; MapKeysGet states what every key holds, the later of two merged keys winning, MapKeysRenames the renaming and MapKeysRoundTrip its inverse |
| Dicts.MapKeysGet | src/graph.ts:213 | after `mapKeys` with any key map, merging or not, a key holds the value of the last entry whose key the map sends to it, and nothing when no key is sent to it |
| Dicts.OverlayOntoEmpty | src/graph.ts:213 | assigning entries with distinct keys into `{}` rebuilds them in order |
| Dicts.RenamedDistinct | src/graph.ts:213 | renaming the keys through a function that merges none of them keeps them distinct |
| Dicts.MapKeysRenames | src/graph.ts:213 | lodash `mapKeys` with a function that merges no keys renames every entry in place |
| Dicts.MapKeysRoundTrip | src/graph.ts:213 | mapping the keys with `g` undoes mapping them with `f` when `g` inverts `f` on the keys |
| KeyedGraph.WithSource | src/graph.ts:47-60 | exactly the edges leaving `s`, under their own keys and in the graph's order; distinct keys stay distinct |
| KeyedGraph.WithDestination | src/graph.ts:62-75 | exactly the edges entering `d`, under their own keys and in the graph's order; distinct keys stay distinct |
| KeyedGraph.CollectEdges | src/graph.ts:51-59 | the loop that assigns each accepted edge into `{}` builds exactly the filtered dictionary |
| KeyedGraph.Remap | src/graph.ts:199-202 | the edge written by mapEdges: endpoints kept, metadata replaced by `transform(metadata, src, dst)`; used by RemappedAt, MapEdgeMetadata and MapEdgesLookup |
| KeyedGraph.RemappedAt | src/graph.ts:197-203 | what the mapEdges loop assigns: one entry per node key, in order, and at position `i` the `i`-th node key with the remapped edge stored under that key |
| KeyedGraph.MapEdgesLookup | src/graph.ts:197-203 | after the as-written mapEdges loop, a node key holds the remapped edge stored under it, and every other key of the output, including an edge key that is not a node key, keeps what it held |
| KeyedGraph.Graph.Empty | src/graph.ts:11 | a graph with no nodes and no edges |
| KeyedGraph.Graph.NodeForKey | src/graph.ts:21-26 | the node stored under `key`, or None exactly when there is none |
| KeyedGraph.Graph.EdgeForKey | src/graph.ts:28-33 | the edge stored under `key`, or None exactly when there is none |
| KeyedGraph.Graph.AllEdges | src/graph.ts:35-39 | the edge dictionary: same keys, and agrees with every edge lookup |
| KeyedGraph.Graph.AllNodes | src/graph.ts:41-45 | the node dictionary: same keys, and agrees with every node lookup |
| KeyedGraph.Graph.EdgesWithSource | src/graph.ts:47-60 | the result holds exactly the edges whose `src` is `srcKey`, under their keys, in order, with distinct keys |
| KeyedGraph.Graph.EdgesWithDestination | src/graph.ts:62-75 | the result holds exactly the edges whose `dst` is `dstKey`, under their keys, in order, with distinct keys |
| KeyedGraph.Graph.FindEdge | src/graph.ts:77-89 | None exactly when no edge passes; otherwise the key of the first edge that passes |
| KeyedGraph.Graph.FilterEdges | src/graph.ts:91-96 | exactly the edges that pass, in order |
| KeyedGraph.Graph.InsertEdge | src/graph.ts:143-150 | `key` then holds `edge`; every other edge and every node is unchanged; a new key goes last; returns the same graph |
| KeyedGraph.Graph.InsertNode | src/graph.ts:152-159 | `key` then holds `node`; every other node and every edge is unchanged; a new key goes last; returns the same graph |
| KeyedGraph.Graph.RemoveEdge | src/graph.ts:161-167 | `key` then holds no edge; the other edges keep their values and order; the nodes are untouched and no dangling check is made |
| KeyedGraph.Graph.MutateNode | src/graph.ts:169-179 | a present node that passes the `!= null` test is replaced in place by `transform` of itself; otherwise nothing changes; the edges never change |
| KeyedGraph.Graph.MapNodes | src/graph.ts:181-190 | `output`'s nodes become its old nodes with `transform` of every node of this graph assigned under the same key, in order; `output`'s edges do not change |
| KeyedGraph.Graph.MapEdges | src/graph.ts:192-205 | as written: assigns, under each NODE key, the remapped edge stored under that key; defined only when every node key is an edge key |
| KeyedGraph.Graph.MapEdgeMetadata | src/graph.ts:192-205 | corrected: every edge of this graph, in order, is assigned into `output` under its own key, with its metadata passed through `transform` and its endpoints kept |
| KeyedGraph.Graph.Merge | src/graph.ts:233-249 | the nodes and then the edges of `g2` are assigned into this graph in order, and `g2` wins on shared keys; `g2` is unchanged; merging a graph into itself changes nothing |
| KeyedGraph.Graph.TransformNodeKeys | src/graph.ts:208-220 | a fresh graph whose nodes are `mapKeys` of this graph's nodes, and whose edges keep their keys with both endpoints renamed |
| KeyedGraph.Graph.TransformEdgeKeys | src/graph.ts:222-231 | a fresh graph with the same nodes and with `mapKeys` of the edges |
| KeyedGraph.Rekey | src/graph.ts:214-218 | the edge transformNodeKeys builds: both endpoints renamed, metadata kept; RekeyedEdge states it for every edge key |
| KeyedGraph.RekeyedEdge | src/graph.ts:214-218 | after transformNodeKeys, an edge key is present exactly when it was before, and its edge has both endpoints renamed and the same metadata |
| KeyedGraph.TransformNodeKeysRoundTrip | src/graph.ts:208-220 | transforming the node keys with `g` undoes transforming them with `f` when `g` inverts `f` on every node key and edge endpoint |
| DependencyResolver.Flags | src/graph.ts:118-129 | one flag per outgoing edge, in order, carrying the edge key and set exactly when the destination is on the current path |
| DependencyResolver.Visit | src/graph.ts:111-133 | one call of `helper`, on values; its meaning is stated by VisitSound, VisitClosed and VisitReaches, and Resolver.Helper is proved to compute it |
| DependencyResolver.VisitEdges | src/graph.ts:118-129 | the loop of `helper` over the outgoing edges, on values; its meaning is stated by VisitEdgesSound, VisitEdgesClosed and VisitEdgesReaches |
| DependencyResolver.VisitSound | src/graph.ts:111-133 | a call of `helper` keeps `resolved` equal to the nodes with steps and keeps every step sound; it only appends steps, resolves nothing on the path, and ends with its own node's step |
| DependencyResolver.VisitEdgesSound | src/graph.ts:118-129 | the loop over outgoing edges keeps the walk sound; every edge it passes ends up resolved unless it leads back onto the path |
| DependencyResolver.Resolve | src/graph.ts:103-138 | the last step is the start node's; no node has two steps; each step lists its node's outgoing edges in order; an edge begins a cycle exactly when its destination has no earlier step |
| DependencyResolver.VisitClosed | src/graph.ts:111-133 | a call of `helper` only adds steps whose edges lead to resolved nodes or onto the path |
| DependencyResolver.VisitEdgesClosed | src/graph.ts:118-129 | the loop keeps every step's edges leading to resolved nodes or onto the path |
| DependencyResolver.ResolveClosed | src/graph.ts:103-138 | every outgoing edge of every step leads to a node that has a step of its own |
| DependencyResolver.VisitReaches | src/graph.ts:111-133 | a call of `helper` only appends steps, ends with its own node's step, and every other step it adds is entered by an edge from a node whose step comes later |
| DependencyResolver.VisitEdgesReaches | src/graph.ts:118-129 | every step the loop adds belongs to a destination of the current node or is entered by an edge from a node whose step comes later |
| DependencyResolver.ResolveEnteredLater | src/graph.ts:103-138 | every step except the last has an edge into it from a node whose step comes later |
| DependencyResolver.EntryEdgeForward | src/graph.ts:120-128 | when a sound step points to a node whose step comes earlier, its edge to that node does not begin a cycle |
| DependencyResolver.ResolveReachable | src/graph.ts:103-138 | only nodes reachable from the start node get steps: every step except the last is the destination of a non-cycle edge of a later step |
| DependencyResolver.ForwardEdgeResolvedEarlier | src/graph.ts:120-128 | an edge that does not begin a cycle leads to a node whose step comes earlier |
| DependencyResolver.SelfLoopBeginsCycle | src/graph.ts:112-120 | an edge from a node to itself always begins a cycle |
| DependencyResolver.LeafResolvesAlone | src/graph.ts:135-137 | a start node with no outgoing edges resolves to its own step alone |
| DependencyResolver.Resolver.constructor | src/graph.ts:107-110 | the walk starts with nothing resolved and no steps |
| DependencyResolver.Resolver.Helper | src/graph.ts:111-133 | the closure, mutating `resolved` and `steps`, leaves them as `Visit` computes |
| DependencyResolver.ResolveDependencies | src/graph.ts:103-138 | returns exactly `Resolve` of the graph's edges |
| PlainGraph.EdgesWithSource | src/index.ts:9-22 | on a plain `{ nodes, edges }` graph: exactly the edges whose `src` is `srcKey`, under their keys, in order |
| PlainGraph.EdgesWithDestination | src/index.ts:24-37 | on a plain graph: exactly the edges whose `dst` is `dstKey`, under their keys, in order |
| PlainGraph.EdgeInItsOwnQueries | src/index.ts:15-17 | an edge is in the source query for `s` if and only if its `src` is `s`, and likewise for destinations |
| SetOps.SetDifference | src/setDifference.ts:3-8 | the elements of `a` that `b` lacks, all of them, in `a`'s order |
| SetOps.DifferenceDistinct | src/setDifference.ts:7 | the difference of a Set has no duplicates |
| SetOps.DifferenceWithEmpty | src/setDifference.ts:7 | removing nothing keeps `a` as it is |
| SetOps.DifferenceWithSelf | src/setDifference.ts:7 | a Set minus itself is empty |
| SetOps.DifferenceAntitone | src/setDifference.ts:7 | removing more leaves a subsequence of what removing less leaves |
| Fixtures.Graph1WellFormed | tests/fixtures/graphs.ts:3-36 | the test graph's node keys and edge keys are distinct |
| Fixtures.EdgesIntoC | tests/graph-test.ts:8-33 | the edges entering `c` are `ac`, `bc`, `cc`, `cc2`, in that order |
| Fixtures.EdgesFromA | tests/graph-test.ts:35-50 | the edges leaving `a` are `ab`, `ac` |
| Fixtures.QueryEdgesIntoC | tests/graph-test.ts:8-33 | the destination query on the test graph returns what the test expects |
| Fixtures.QueryEdgesFromA | tests/graph-test.ts:35-50 | the source query on the test graph returns what the test expects |
| Fixtures.ResolveFromA | src/graph.ts:103-138 | on the test graph from `a`: step `c` with both self-loops beginning a cycle, then `b`, then `a` with no cycles |
| Fixtures.ResolveCycle | src/graph.ts:103-138 | on `a -> b -> a` from `a`: step `b`, whose edge back to `a` begins a cycle, then `a` |
| Fixtures.Graph1OutsideMapEdges | src/graph.ts:197-201 | a graph with the test graph's nodes and edges has a node `a` but no edge keyed `a`, so the as-written mapEdges reads a missing edge |
| Fixtures.MapEdgesSkipsEdge | src/graph.ts:197-203 | with one node `x` and edges `x`, `y`, the as-written mapEdges never writes `y`; the corrected one writes `y` with its metadata mapped |

## Left out

- Every string is treated as an own key of a dictionary: inherited properties such as `toString` or `constructor`, and the special key `__proto__`, are not modelled. In the source `nodeForKey(empty(), "toString")` finds the inherited function, `mutateNode(g, "constructor", f)` passes the inherited `Object` constructor to `f` and stores the result as an own key, and `insertEdge(g, e, "__proto__")` changes the prototype instead of adding a key; in the model all three treat the key as absent or new.
- `KeyedGraph.Graph.AllNodes` and `KeyedGraph.Graph.AllEdges` return the dictionary as a value. The source returns the live `_nodes` or `_edges` object (src/graph.ts:38 and src/graph.ts:44), so a write into the result changes the graph; that aliasing is not modelled.
- `clone`: `{ ...graph }` is a shallow copy that shares the node and edge objects with the original. The model has no aliasing between dictionaries, so it leaves clone out.
- Object identity of the returned graph: every mutation returns `this`, and that is stated. The sharing of the `_nodes` object between the input and the output of `transformEdgeKeys` is not modelled; the output is a fresh graph whose nodes are equal to the input's.
- `Object.keys` lists integer-like keys (such as `"1"`) first, in numeric order. The model keeps every key in insertion order.
- `KeyedGraph.Graph.MutateNode`: the loose `!= null` test is the caller-supplied predicate `isNull`, which says which payloads JavaScript treats as null or undefined. A missing key is handled as None.
- `KeyedGraph.Graph.MapEdges`: the source throws a TypeError when a node key has no edge, and the model turns that into a precondition instead of modelling the exception.
- The stack depth of the recursive `helper` is unbounded in the model.
- lodash internals beyond the behaviour stated for `pickBy`, `mapValues` and `mapKeys` are out of scope. `omit` is imported but never used.
- The commented-out code after line 38 of `src/index.ts` is not part of this model.
- Type-level casts (`as any`) and generics carry no behaviour and are dropped.
- `tests/fixtures/graphs.ts` builds its graph with the fields `nodes` and `edges`, the shape of `src/index.ts`, while `tests/graph-test.ts` passes it to the functions of `src/graph.ts`, which read `_nodes` and `_edges`. The fixtures are modelled on the `src/index.ts` shape, which is the shape they are written in.
- The code mutates its first argument in place (src/graph.ts:233 says so), and the model follows the code.

## Findings

| source | as written | input that shows it | evidently intended | confidence | as-written member | corrected member |
|---|---|---|---|---|---|---|
| src/graph.ts:197-198 | `mapEdges` loops over the keys of `graph._nodes` and reads `graph._edges[key]` | one node `x` and edges `x` and `y`: edge `y` is never written; a graph with the test graph's nodes and edges (node `a`, no edge keyed `a`): reads `.metadata` of `undefined` | loop over the keys of `graph._edges`, so that every edge is mapped under its own key | not executed | KeyedGraph.Graph.MapEdges, KeyedGraph.MapEdgesLookup, Fixtures.MapEdgesSkipsEdge | KeyedGraph.Graph.MapEdgeMetadata, Dicts.MappedLookup |
