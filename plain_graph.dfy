/** The free functions of src/index.ts, which query a graph given as a plain value
    `{ nodes, edges }` instead of the keyed-graph class. */
module PlainGraph {
  import opened Seqs
  import opened Dicts
  import opened KeyedGraph

  /** `Graph<Node, EdgeMetadata>` of src/index.ts: two string-keyed objects. */
  datatype Plain<N, E> = Plain(nodes: Dict<N>, edges: Dict<Edge<E>>)

  /** Both objects have distinct keys, as every JavaScript object does. */
  ghost predicate WellFormed<N, E>(graph: Plain<N, E>) {
    DistinctKeys(graph.nodes) && DistinctKeys(graph.edges)
  }

  /** `edgesWithSource(srcKey, graph)`: a new object holding exactly the edges that leave
      `srcKey`, under their own keys and in the graph's order. */
  method EdgesWithSource<N, E>(srcKey: string, graph: Plain<N, E>) returns (result: Dict<Edge<E>>)
    requires WellFormed(graph)
    ensures result == WithSource(graph.edges, srcKey)
    ensures forall i :: 0 <= i < |result| ==> result[i].1.src == srcKey
    ensures forall i :: 0 <= i < |graph.edges| && graph.edges[i].1.src == srcKey ==> graph.edges[i] in result
    ensures IsSubsequence(result, graph.edges) && DistinctKeys(result)
  {
    result := CollectEdges(graph.edges, SourceIs(srcKey));
  }

  /** `edgesWithDestination(dstKey, graph)`: a new object holding exactly the edges that
      enter `dstKey`, under their own keys and in the graph's order. */
  method EdgesWithDestination<N, E>(dstKey: string, graph: Plain<N, E>) returns (result: Dict<Edge<E>>)
    requires WellFormed(graph)
    ensures result == WithDestination(graph.edges, dstKey)
    ensures forall i :: 0 <= i < |result| ==> result[i].1.dst == dstKey
    ensures forall i :: 0 <= i < |graph.edges| && graph.edges[i].1.dst == dstKey ==> graph.edges[i] in result
    ensures IsSubsequence(result, graph.edges) && DistinctKeys(result)
  {
    result := CollectEdges(graph.edges, DestinationIs(dstKey));
  }

  /** Every edge is found by exactly one source query and one destination query: the
      one for its own source, and the one for its own destination. */
  lemma {:induction false} EdgeInItsOwnQueries<E>(edges: Dict<Edge<E>>, i: nat, s: string, d: string)
    requires i < |edges|
    ensures edges[i] in WithSource(edges, s) <==> edges[i].1.src == s
    ensures edges[i] in WithDestination(edges, d) <==> edges[i].1.dst == d
  {
    var e := edges[i];
    if e in WithSource(edges, s) {
      var j :| 0 <= j < |WithSource(edges, s)| && WithSource(edges, s)[j] == e;
    }
    if e in WithDestination(edges, d) {
      var j :| 0 <= j < |WithDestination(edges, d)| && WithDestination(edges, d)[j] == e;
    }
  }
}
