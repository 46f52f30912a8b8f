/** The keyed graph container of src/graph.ts: two string-keyed dictionaries, one of
    node payloads and one of edges. Nothing ties an edge's endpoints to the node
    dictionary. Every mutator writes through the graph it is given and returns that
    same graph. */
module KeyedGraph {
  import opened Seqs
  import opened Dicts

  /** An edge between two node keys, with caller-defined metadata. */
  datatype Edge<E> = Edge(src: string, dst: string, metadata: E)

  function SourceIs<E>(s: string): Edge<E> -> bool {
    (e: Edge<E>) => e.src == s
  }

  function DestinationIs<E>(d: string): Edge<E> -> bool {
    (e: Edge<E>) => e.dst == d
  }

  /** The entries of `edges` whose source is `s`, keys and edges as they are, in order. */
  function WithSource<E>(edges: Dict<Edge<E>>, s: string): (r: Dict<Edge<E>>)
    ensures forall i :: 0 <= i < |r| ==> r[i].1.src == s
    ensures forall i :: 0 <= i < |edges| && edges[i].1.src == s ==> edges[i] in r
    ensures IsSubsequence(r, edges)
    ensures DistinctKeys(edges) ==> DistinctKeys(r)
  {
    var r := Filter(edges, SourceIs(s));
    SubsequenceDistinctKeys(r, edges);
    r
  }

  /** The entries of `edges` whose destination is `d`, keys and edges as they are, in order. */
  function WithDestination<E>(edges: Dict<Edge<E>>, d: string): (r: Dict<Edge<E>>)
    ensures forall i :: 0 <= i < |r| ==> r[i].1.dst == d
    ensures forall i :: 0 <= i < |edges| && edges[i].1.dst == d ==> edges[i] in r
    ensures IsSubsequence(r, edges)
    ensures DistinctKeys(edges) ==> DistinctKeys(r)
  {
    var r := Filter(edges, DestinationIs(d));
    SubsequenceDistinctKeys(r, edges);
    r
  }

  /** The loop shared by both edge queries: `result[edgeKey] = edge` for every entry
      that `p` accepts. Because the keys are distinct, each assignment appends. */
  method CollectEdges<E>(edges: Dict<Edge<E>>, p: Edge<E> -> bool) returns (result: Dict<Edge<E>>)
    requires DistinctKeys(edges)
    ensures result == Filter(edges, p)
  {
    result := [];
    for i := 0 to |edges|
      invariant result == Filter(edges[..i], p)
    {
      var (edgeKey, edge) := edges[i];
      FilterStep(edges, i, p);
      if p(edge) {
        result := Put(result, edgeKey, edge);
      }
    }
    assert edges[..|edges|] == edges;
  }

  /** Lifts edge metadata through `f`, keeping the endpoints. */
  function Remap<E, E2>(f: (E, string, string) -> E2): Edge<E> -> Edge<E2> {
    (e: Edge<E>) => Edge(e.src, e.dst, f(e.metadata, e.src, e.dst))
  }

  /** What the loop of mapEdges assigns: for each key of `keys`, in order, the edge
      stored under that key with its metadata passed through `f`. */
  function RemappedAt<E, E2>(keys: seq<string>, edges: Dict<Edge<E>>, f: (E, string, string) -> E2): (r: Dict<Edge<E2>>)
    requires forall k :: k in keys ==> k in Keys(edges)
    ensures Keys(r) == keys
    ensures forall i :: 0 <= i < |keys| ==> r[i] == (keys[i], Remap(f)(Get(edges, keys[i]).value))
  {
    var r := seq(|keys|, i requires 0 <= i < |keys| => (keys[i], Remap(f)(Get(edges, keys[i]).value)));
    assert forall i :: 0 <= i < |keys| ==> Keys(r)[i] == keys[i];
    r
  }

  /** After the mapEdges loop, the output holds, under every node key, the remapped edge
      stored under that key, and keeps its own entry under every other key: an edge whose
      key is not a node key is never written. */
  lemma MapEdgesLookup<E, E2>(base: Dict<Edge<E2>>, keys: seq<string>, edges: Dict<Edge<E>>, f: (E, string, string) -> E2, k: string)
    requires Distinct(keys) && forall k :: k in keys ==> k in Keys(edges)
    ensures Get(Overlay(base, RemappedAt(keys, edges, f)), k)
         == if k in keys then Some(Remap(f)(Get(edges, k).value)) else Get(base, k)
  {
    var r := RemappedAt(keys, edges, f);
    OverlayGet(base, r, k);
    if k in keys {
      var i :| 0 <= i < |keys| && keys[i] == k;
      assert r[i] == (k, Remap(f)(Get(edges, k).value));
    }
  }

  /** The loop of mapEdges one key further. */
  lemma RemappedAtSnoc<E, E2>(keys: seq<string>, i: nat, edges: Dict<Edge<E>>, f: (E, string, string) -> E2)
    requires i < |keys| && forall k :: k in keys ==> k in Keys(edges)
    ensures RemappedAt(keys[..i + 1], edges, f)
         == RemappedAt(keys[..i], edges, f) + [(keys[i], Remap(f)(Get(edges, keys[i]).value))]
  {
    var pre, full := keys[..i], keys[..i + 1];
    var a, p := RemappedAt(full, edges, f), RemappedAt(pre, edges, f);
    var b := p + [(keys[i], Remap(f)(Get(edges, keys[i]).value))];
    forall j | 0 <= j < i + 1
      ensures a[j] == b[j]
    {
      if j < i {
        assert full[j] == pre[j];
      }
    }
  }

  /** One step of the mapEdges loop: assigning the remapped edge of `keys[i]` extends the
      overlay by that key. */
  lemma RemappedOverlayStep<E, E2>(base: Dict<Edge<E2>>, keys: seq<string>, i: nat, edges: Dict<Edge<E>>, f: (E, string, string) -> E2)
    requires i < |keys| && forall k :: k in keys ==> k in Keys(edges)
    ensures Overlay(base, RemappedAt(keys[..i + 1], edges, f))
         == Put(Overlay(base, RemappedAt(keys[..i], edges, f)), keys[i], Remap(f)(Get(edges, keys[i]).value))
  {
    RemappedAtSnoc(keys, i, edges, f);
    OverlaySnoc(base, RemappedAt(keys[..i], edges, f), (keys[i], Remap(f)(Get(edges, keys[i]).value)));
  }

  class Graph<N, E> {
    var nodes: Dict<N>
    var edges: Dict<Edge<E>>

    ghost predicate Valid()
      reads this
    {
      DistinctKeys(nodes) && DistinctKeys(edges)
    }

    /** `empty()`: a graph with no nodes and no edges. */
    constructor Empty()
      ensures Valid() && nodes == [] && edges == []
    {
      nodes := [];
      edges := [];
    }

    /** `graph._nodes[key]`: the node stored under `key`, if any. */
    function NodeForKey(key: string): (r: Option<N>)
      reads this
      ensures r.Some? <==> key in Keys(nodes)
      ensures r.Some? ==> (key, r.value) in nodes
    {
      Get(nodes, key)
    }

    /** `graph._edges[key]`: the edge stored under `key`, if any. */
    function EdgeForKey(key: string): (r: Option<Edge<E>>)
      reads this
      ensures r.Some? <==> key in Keys(edges)
      ensures r.Some? ==> (key, r.value) in edges
    {
      Get(edges, key)
    }

    /** The node dictionary itself: a view that agrees with every lookup. */
    function AllNodes(): (r: Dict<N>)
      reads this
      ensures Keys(r) == Keys(nodes)
      ensures forall k :: Get(r, k) == NodeForKey(k)
    {
      nodes
    }

    /** The edge dictionary itself: a view that agrees with every lookup. */
    function AllEdges(): (r: Dict<Edge<E>>)
      reads this
      ensures Keys(r) == Keys(edges)
      ensures forall k :: Get(r, k) == EdgeForKey(k)
    {
      edges
    }

    /** `edgesWithSource(srcKey, graph)`: exactly the edges leaving `srcKey`, under their
        own keys, in the graph's order. `srcKey` need not be a node. */
    method EdgesWithSource(srcKey: string) returns (result: Dict<Edge<E>>)
      requires Valid()
      ensures result == WithSource(edges, srcKey)
      ensures forall i :: 0 <= i < |result| ==> result[i].1.src == srcKey
      ensures forall i :: 0 <= i < |edges| && edges[i].1.src == srcKey ==> edges[i] in result
      ensures IsSubsequence(result, edges) && DistinctKeys(result)
    {
      result := CollectEdges(edges, SourceIs(srcKey));
    }

    /** `edgesWithDestination(dstKey, graph)`: exactly the edges entering `dstKey`. */
    method EdgesWithDestination(dstKey: string) returns (result: Dict<Edge<E>>)
      requires Valid()
      ensures result == WithDestination(edges, dstKey)
      ensures forall i :: 0 <= i < |result| ==> result[i].1.dst == dstKey
      ensures forall i :: 0 <= i < |edges| && edges[i].1.dst == dstKey ==> edges[i] in result
      ensures IsSubsequence(result, edges) && DistinctKeys(result)
    {
      result := CollectEdges(edges, DestinationIs(dstKey));
    }

    /** `findEdge(graph, predicate)`: the first edge key, in the graph's order, whose
        edge satisfies `p`; None exactly when no edge does. */
    function FindEdge(p: Edge<E> -> bool): (r: Option<string>)
      reads this
      ensures r.None? <==> forall i :: 0 <= i < |edges| ==> !p(edges[i].1)
      ensures r.Some? ==> exists i :: 0 <= i < |edges| && edges[i].0 == r.value && p(edges[i].1) &&
                                      forall j :: 0 <= j < i ==> !p(edges[j].1)
    {
      FindKey(edges, p)
    }

    /** `filterEdges(graph, predicate)`: exactly the edges satisfying `p`, in order. */
    function FilterEdges(p: Edge<E> -> bool): (r: Dict<Edge<E>>)
      reads this
      ensures forall i :: 0 <= i < |r| ==> p(r[i].1)
      ensures forall i :: 0 <= i < |edges| && p(edges[i].1) ==> edges[i] in r
      ensures IsSubsequence(r, edges)
    {
      Filter(edges, p)
    }

    /** `insertEdge(graph, edge, key)`: stores `edge` under `key`; nothing else changes. */
    method InsertEdge(edge: Edge<E>, key: string) returns (g: Graph<N, E>)
      requires Valid()
      modifies this
      ensures g == this && Valid()
      ensures edges == Put(old(edges), key, edge) && nodes == old(nodes)
      ensures EdgeForKey(key) == Some(edge)
      ensures forall k :: k != key ==> EdgeForKey(k) == old(EdgeForKey(k))
      ensures Keys(edges) == if key in old(Keys(edges)) then old(Keys(edges)) else old(Keys(edges)) + [key]
    {
      PutKeys(edges, key, edge);
      PutDistinct(edges, key, edge);
      edges := Put(edges, key, edge);
      g := this;
    }

    /** `insertNode(graph, node, key)`: stores `node` under `key`; nothing else changes. */
    method InsertNode(node: N, key: string) returns (g: Graph<N, E>)
      requires Valid()
      modifies this
      ensures g == this && Valid()
      ensures nodes == Put(old(nodes), key, node) && edges == old(edges)
      ensures NodeForKey(key) == Some(node)
      ensures forall k :: k != key ==> NodeForKey(k) == old(NodeForKey(k))
      ensures Keys(nodes) == if key in old(Keys(nodes)) then old(Keys(nodes)) else old(Keys(nodes)) + [key]
    {
      PutKeys(nodes, key, node);
      PutDistinct(nodes, key, node);
      nodes := Put(nodes, key, node);
      g := this;
    }

    /** `removeEdge(graph, key)`: deletes the edge under `key`, if any; the rest of the
        edges keep their order, and the nodes are untouched (no dangling check). */
    method RemoveEdge(key: string) returns (g: Graph<N, E>)
      requires Valid()
      modifies this
      ensures g == this && Valid()
      ensures edges == Remove(old(edges), key) && nodes == old(nodes)
      ensures EdgeForKey(key) == None
      ensures forall k :: k != key ==> EdgeForKey(k) == old(EdgeForKey(k))
      ensures IsSubsequence(edges, old(edges))
      ensures key !in old(Keys(edges)) ==> edges == old(edges)
    {
      SubsequenceDistinctKeys(Remove(edges, key), edges);
      edges := Remove(edges, key);
      g := this;
    }

    /** `mutateNode(graph, nodeKey, transform)`: when the node is present and passes the
        loose `!= null` test (`isNull` says which payloads JavaScript treats as null or
        undefined), it is replaced by `transform` of itself in place; otherwise nothing
        changes. Edges never change. */
    method MutateNode(nodeKey: string, transform: N -> N, isNull: N -> bool) returns (g: Graph<N, E>)
      requires Valid()
      modifies this
      ensures g == this && Valid() && edges == old(edges)
      ensures old(NodeForKey(nodeKey)).None? || isNull(old(NodeForKey(nodeKey)).value) ==>
                nodes == old(nodes)
      ensures old(NodeForKey(nodeKey)).Some? && !isNull(old(NodeForKey(nodeKey)).value) ==>
                && nodes == Put(old(nodes), nodeKey, transform(old(NodeForKey(nodeKey)).value))
                && NodeForKey(nodeKey) == Some(transform(old(NodeForKey(nodeKey)).value))
                && Keys(nodes) == old(Keys(nodes))
      ensures forall k :: k != nodeKey ==> NodeForKey(k) == old(NodeForKey(k))
    {
      var current := Get(nodes, nodeKey);
      if current.Some? && !isNull(current.value) {
        PutKeys(nodes, nodeKey, transform(current.value));
        PutDistinct(nodes, nodeKey, transform(current.value));
        nodes := Put(nodes, nodeKey, transform(current.value));
      }
      g := this;
    }

    /** `mapNodes(graph, outputGraph, transform)`: assigns `transform` of every node of
        this graph, in order, into `output` under the same key. The keys are read once
        before the loop; a value is read just before it is assigned, and since the keys
        are distinct, no assignment can have changed it even when `output` is this
        graph, so reading it from the snapshot is the same. */
    method MapNodes<N2>(output: Graph<N2, E>, transform: N -> N2) returns (g: Graph<N2, E>)
      requires Valid() && output.Valid()
      modifies output
      ensures g == output && output.Valid()
      ensures output.nodes == Overlay(old(output.nodes), MapValues(old(nodes), transform))
      ensures output.edges == old(output.edges)
    {
      var source := nodes;
      ghost var base := output.nodes;
      for i := 0 to |source|
        invariant output.Valid() && output.edges == old(output.edges)
        invariant output.nodes == Overlay(base, MapValues(source[..i], transform))
      {
        var (key, node) := source[i];
        OverlayMapStep(base, source, i, transform);
        PutDistinct(output.nodes, key, transform(node));
        output.nodes := Put(output.nodes, key, transform(node));
      }
      assert source[..|source|] == source;
      g := output;
    }

    /** `mapEdges(graph, outputGraph, transform)` as the source writes it: the loop runs
        over the NODE keys and reads the edge stored under each of them, so it is defined
        only when every node key is also an edge key (otherwise reading `.metadata` of
        `undefined` throws), and edges whose key is not a node key are never mapped. */
    method MapEdges<E2>(output: Graph<N, E2>, transform: (E, string, string) -> E2) returns (g: Graph<N, E2>)
      requires Valid() && output.Valid()
      requires forall k :: k in Keys(nodes) ==> k in Keys(edges)
      modifies output
      ensures g == output && output.Valid()
      ensures output.edges == Overlay(old(output.edges), RemappedAt(old(Keys(nodes)), old(edges), transform))
      ensures output.nodes == old(output.nodes)
    {
      var keys := Keys(nodes);
      var source := edges;
      ghost var base := output.edges;
      for i := 0 to |keys|
        invariant output.nodes == old(output.nodes)
        invariant output.edges == Overlay(base, RemappedAt(keys[..i], source, transform))
      {
        var key := keys[i];
        var edge := Get(source, key).value;
        var remapped := Edge(edge.src, edge.dst, transform(edge.metadata, edge.src, edge.dst));
        RemappedOverlayStep(base, keys, i, source, transform);
        output.edges := Put(output.edges, key, remapped);
      }
      assert keys[..|keys|] == keys;
      g := output;
    }

    /** mapEdges as its name and its `transform(metadata, src, dst)` signature mean it:
        every EDGE, in order, is assigned into `output` under its own key with its
        metadata passed through `transform`. */
    method MapEdgeMetadata<E2>(output: Graph<N, E2>, transform: (E, string, string) -> E2) returns (g: Graph<N, E2>)
      requires Valid() && output.Valid()
      modifies output
      ensures g == output && output.Valid()
      ensures output.edges == Overlay(old(output.edges), MapValues(old(edges), Remap(transform)))
      ensures output.nodes == old(output.nodes)
    {
      var source := edges;
      ghost var base := output.edges;
      for i := 0 to |source|
        invariant output.nodes == old(output.nodes)
        invariant output.edges == Overlay(base, MapValues(source[..i], Remap(transform)))
      {
        var (key, edge) := source[i];
        var remapped := Edge(edge.src, edge.dst, transform(edge.metadata, edge.src, edge.dst));
        OverlayMapStep(base, source, i, Remap(transform));
        output.edges := Put(output.edges, key, remapped);
      }
      assert source[..|source|] == source;
      g := output;
    }

    /** `merge(g1, g2)`: assigns every node and then every edge of `g2`, in order, into
        this graph, which it returns; `g2` wins on shared keys. */
    method Merge(g2: Graph<N, E>) returns (g: Graph<N, E>)
      requires Valid() && g2.Valid()
      modifies this
      ensures g == this && Valid()
      ensures nodes == Overlay(old(nodes), old(g2.nodes))
      ensures edges == Overlay(old(edges), old(g2.edges))
      ensures g2 != this ==> g2.nodes == old(g2.nodes) && g2.edges == old(g2.edges)
      ensures g2 == this ==> nodes == old(nodes) && edges == old(edges)
    {
      var otherNodes := g2.AllNodes();
      for i := 0 to |otherNodes|
        invariant Valid() && edges == old(edges)
        invariant nodes == Overlay(old(nodes), otherNodes[..i])
      {
        OverlayStep(old(nodes), otherNodes, i);
        var _ := InsertNode(otherNodes[i].1, otherNodes[i].0);
      }
      assert otherNodes[..|otherNodes|] == otherNodes;
      var otherEdges := g2.AllEdges();
      for i := 0 to |otherEdges|
        invariant Valid() && nodes == Overlay(old(nodes), old(g2.nodes))
        invariant edges == Overlay(old(edges), otherEdges[..i])
      {
        OverlayStep(old(edges), otherEdges, i);
        var _ := InsertEdge(otherEdges[i].1, otherEdges[i].0);
      }
      assert otherEdges[..|otherEdges|] == otherEdges;
      if g2 == this {
        OverlayContained(old(nodes), old(nodes));
        OverlayContained(old(edges), old(edges));
      }
      g := this;
    }

    /** `transformNodeKeys(graph, transformKey)`: a new graph whose nodes are this graph's
        under `transformKey` of their keys (lodash mapKeys: a later node wins when two
        keys merge) and whose edges keep their keys with both endpoints renamed. */
    method TransformNodeKeys(transformKey: string -> string) returns (g: Graph<N, E>)
      requires Valid()
      ensures fresh(g) && g.Valid()
      ensures g.nodes == MapKeys(nodes, transformKey)
      ensures g.edges == MapValues(edges, Rekey(transformKey))
    {
      g := new Graph.Empty();
      g.nodes := MapKeys(nodes, transformKey);
      g.edges := MapValues(edges, Rekey(transformKey));
    }

    /** `transformEdgeKeys(graph, transformKey)`: a new graph with this graph's nodes and
        its edges under `transformKey` of their keys. */
    method TransformEdgeKeys(transformKey: string -> string) returns (g: Graph<N, E>)
      requires Valid()
      ensures fresh(g) && g.Valid()
      ensures g.nodes == nodes
      ensures g.edges == MapKeys(edges, transformKey)
    {
      g := new Graph.Empty();
      g.nodes := nodes;
      g.edges := MapKeys(edges, transformKey);
    }
  }

  /** Renames both endpoints of an edge, keeping its metadata. */
  function Rekey<E>(f: string -> string): Edge<E> -> Edge<E> {
    (e: Edge<E>) => Edge(f(e.src), f(e.dst), e.metadata)
  }

  /** transformNodeKeys keeps every edge under its key and renames its endpoints with the
      same function as the nodes, so edges still meet the nodes they met. */
  lemma RekeyedEdge<E>(edges: Dict<Edge<E>>, f: string -> string, k: string)
    ensures Get(MapValues(edges, Rekey(f)), k).Some? <==> Get(edges, k).Some?
    ensures Get(edges, k).Some? ==>
      && Get(MapValues(edges, Rekey(f)), k).value.src == f(Get(edges, k).value.src)
      && Get(MapValues(edges, Rekey(f)), k).value.dst == f(Get(edges, k).value.dst)
      && Get(MapValues(edges, Rekey(f)), k).value.metadata == Get(edges, k).value.metadata
  {
    MapValuesGet(edges, Rekey(f), k);
  }

  /** transformNodeKeys with `g` undoes transformNodeKeys with `f` when `g` inverts `f`
      on every node key and every edge endpoint. */
  lemma TransformNodeKeysRoundTrip<N, E>(nodes: Dict<N>, edges: Dict<Edge<E>>, f: string -> string, g: string -> string)
    requires DistinctKeys(nodes)
    requires forall i :: 0 <= i < |nodes| ==> g(f(nodes[i].0)) == nodes[i].0
    requires forall i :: 0 <= i < |edges| ==> g(f(edges[i].1.src)) == edges[i].1.src && g(f(edges[i].1.dst)) == edges[i].1.dst
    ensures MapKeys(MapKeys(nodes, f), g) == nodes
    ensures MapValues(MapValues(edges, Rekey(f)), Rekey(g)) == edges
  {
    MapKeysRoundTrip(nodes, f, g);
    MapValuesRoundTrip(edges, Rekey(f), Rekey(g));
  }
}