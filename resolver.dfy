/** resolveDependencies of src/graph.ts: a depth-first walk from a start node that
    emits a node's step after the steps of the dependencies it walks into. Each step
    lists the node's outgoing edges, each flagged with whether its destination is on
    the current path (the node itself or one of the nodes whose calls are still
    running). Such edges begin a cycle and are never followed, so the walk ends on
    every graph.

    The walk is given twice: as the functions Visit and VisitEdges, which thread the
    shared `resolved` set and `steps` array through the recursion, and as the class
    Resolver, whose Helper mutates them as the source's closure does and is proved to
    compute what Visit computes. */
module DependencyResolver {
  import opened Seqs
  import opened Dicts
  import opened KeyedGraph

  /** `{ edgeKey, beginsCycle }`. */
  datatype EdgeFlag = EdgeFlag(edgeKey: string, beginsCycle: bool)

  /** `{ nodeKey, edges }`. */
  datatype ExecutionStep = ExecutionStep(nodeKey: string, edges: seq<EdgeFlag>)

  /** The state shared by every call of the walk: `resolved` and `steps`. */
  datatype Walk = Walk(resolved: set<string>, steps: seq<ExecutionStep>)

  /** Every node key some edge points at. */
  ghost function Destinations<E>(edges: Dict<Edge<E>>): set<string> {
    if edges == [] then {} else {edges[0].1.dst} + Destinations(edges[1..])
  }

  /** The nodes that have a step in `steps`. */
  ghost function StepKeys(steps: seq<ExecutionStep>): set<string> {
    if steps == [] then {} else StepKeys(steps[..|steps| - 1]) + {steps[|steps| - 1].nodeKey}
  }

  /** What one step says, judged from the steps before it alone: its node had no step
      yet, its edges are the node's outgoing edges under their keys and in order, and
      an edge is flagged as beginning a cycle exactly when its destination has no
      earlier step. */
  ghost predicate StepSound<E>(edges: Dict<Edge<E>>, before: seq<ExecutionStep>, step: ExecutionStep) {
    var out := WithSource(edges, step.nodeKey);
    && step.nodeKey !in StepKeys(before)
    && |step.edges| == |out|
    && forall j :: 0 <= j < |out| ==>
         && step.edges[j].edgeKey == out[j].0
         && (step.edges[j].beginsCycle <==> out[j].1.dst !in StepKeys(before))
  }

  /** Every step is sound with respect to the steps before it. */
  ghost predicate StepsSound<E>(edges: Dict<Edge<E>>, steps: seq<ExecutionStep>) {
    steps != [] ==>
      && StepsSound(edges, steps[..|steps| - 1])
      && StepSound(edges, steps[..|steps| - 1], steps[|steps| - 1])
  }

  /** The invariant of the shared state: `resolved` holds exactly the nodes that have a
      step, and the steps are sound. */
  ghost predicate WalkSound<E>(edges: Dict<Edge<E>>, w: Walk) {
    w.resolved == StepKeys(w.steps) && StepsSound(edges, w.steps)
  }

  /** The flags the loop of `helper` pushes for the edges `out` while `path` is the
      current path: one per edge, in order, set exactly when the edge's destination is
      on the path. */
  function Flags<E>(out: Dict<Edge<E>>, path: set<string>): (r: seq<EdgeFlag>)
    ensures |r| == |out|
    ensures forall j :: 0 <= j < |out| ==>
              r[j].edgeKey == out[j].0 && (r[j].beginsCycle <==> out[j].1.dst in path)
  {
    if out == [] then []
    else
      var last := out[|out| - 1];
      Flags(out[..|out| - 1], path) + [EdgeFlag(last.0, last.1.dst in path)]
  }

  /** One call of `helper(nodeKey, seen)`: walks every outgoing edge of `nodeKey` with
      `nodeKey` added to the path, then appends the node's step and resolves it. What
      the walk computes is stated by VisitSound. */
  function Visit<E>(edges: Dict<Edge<E>>, nodeKey: string, seen: set<string>, w: Walk): Walk
    requires nodeKey !in seen
    decreases |(Destinations(edges) + {nodeKey}) - seen|, 0, 0
  {
    var path := seen + {nodeKey};
    MeasureShrinks(Destinations(edges), nodeKey, seen);
    var walked := VisitEdges(edges, nodeKey, 0, path, w);
    var step := ExecutionStep(nodeKey, Flags(WithSource(edges, nodeKey), path));
    Walk(walked.resolved + {nodeKey}, walked.steps + [step])
  }

  /** The loop of `helper(nodeKey, _)` from the `i`-th outgoing edge on. An edge whose
      destination is on `path` begins a cycle and is not followed; any other edge is
      followed when its destination is not resolved yet. */
  function VisitEdges<E>(edges: Dict<Edge<E>>, nodeKey: string, i: nat, path: set<string>, w: Walk): Walk
    requires i <= |WithSource(edges, nodeKey)|
    decreases |Destinations(edges) - path|, 1, |WithSource(edges, nodeKey)| - i
  {
    var out := WithSource(edges, nodeKey);
    if i == |out| then w
    else
      var dst := out[i].1.dst;
      DestinationsAbsorb(edges, nodeKey, i);
      if dst in w.resolved || dst in path then
        VisitEdges(edges, nodeKey, i + 1, path, w)
      else
        VisitEdges(edges, nodeKey, i + 1, path, Visit(edges, dst, path, w))
  }

  /** The `j`-th outgoing edge of `nodeKey` is resolved in `w` unless it leads back onto the path. */
  ghost predicate Followed<E>(edges: Dict<Edge<E>>, nodeKey: string, j: nat, path: set<string>, w: Walk)
    requires j < |WithSource(edges, nodeKey)|
  {
    var dst := WithSource(edges, nodeKey)[j].1.dst;
    dst !in path ==> dst in w.resolved
  }

  /** A call of `helper` on a node that is neither on the path nor resolved keeps the
      shared state sound, only appends steps, resolves the node (its step comes last)
      and resolves nothing that is on the path. */
  lemma {:induction false} VisitSound<E>(edges: Dict<Edge<E>>, nodeKey: string, seen: set<string>, w: Walk)
    requires nodeKey !in seen && nodeKey !in w.resolved && seen !! w.resolved
    requires WalkSound(edges, w)
    ensures var r := Visit(edges, nodeKey, seen, w);
      && WalkSound(edges, r)
      && w.steps <= r.steps && w.resolved <= r.resolved
      && nodeKey in r.resolved && (r.resolved - w.resolved) !! seen
      && |r.steps| > 0 && r.steps[|r.steps| - 1].nodeKey == nodeKey
    decreases |(Destinations(edges) + {nodeKey}) - seen|, 0, 0
  {
    var path := seen + {nodeKey};
    MeasureShrinks(Destinations(edges), nodeKey, seen);
    VisitEdgesSound(edges, nodeKey, 0, path, w);
    var walked := VisitEdges(edges, nodeKey, 0, path, w);
    NewStepSound(edges, nodeKey, seen, w, walked);
    AppendSound(edges, walked, ExecutionStep(nodeKey, Flags(WithSource(edges, nodeKey), path)));
  }

  /** The loop over the outgoing edges from the `i`-th on keeps the shared state sound,
      only appends steps, resolves nothing on the path, and leaves every edge from the
      `i`-th on resolved unless it leads back onto the path. */
  lemma {:induction false} VisitEdgesSound<E>(edges: Dict<Edge<E>>, nodeKey: string, i: nat, path: set<string>, w: Walk)
    requires i <= |WithSource(edges, nodeKey)|
    requires path !! w.resolved && WalkSound(edges, w)
    ensures var r := VisitEdges(edges, nodeKey, i, path, w);
      && WalkSound(edges, r)
      && w.steps <= r.steps && w.resolved <= r.resolved
      && (r.resolved - w.resolved) !! path
      && forall j :: i <= j < |WithSource(edges, nodeKey)| ==> Followed(edges, nodeKey, j, path, r)
    decreases |Destinations(edges) - path|, 1, |WithSource(edges, nodeKey)| - i
  {
    var out := WithSource(edges, nodeKey);
    if i < |out| {
      var dst := out[i].1.dst;
      DestinationsAbsorb(edges, nodeKey, i);
      var next := w;
      if dst !in w.resolved && dst !in path {
        VisitSound(edges, dst, path, w);
        next := Visit(edges, dst, path, w);
      }
      VisitEdgesSound(edges, nodeKey, i + 1, path, next);
      var r := VisitEdges(edges, nodeKey, i + 1, path, next);
      assert VisitEdges(edges, nodeKey, i, path, w) == r;
      assert Followed(edges, nodeKey, i, path, next);
      forall j | i <= j < |out| ensures Followed(edges, nodeKey, j, path, r) {
        if j == i {
          assert Followed(edges, nodeKey, i, path, next);
        }
      }
    }
  }

  /** `resolveDependencies(graph, startNode)` on the graph's edges. The last step is the
      start node's, no node has two steps, and every step is sound: its edges are the
      node's outgoing edges in order, and an edge begins a cycle exactly when its
      destination has no earlier step. */
  function Resolve<E>(edges: Dict<Edge<E>>, startNode: string): (steps: seq<ExecutionStep>)
    ensures |steps| > 0 && steps[|steps| - 1].nodeKey == startNode
    ensures forall i :: 0 <= i < |steps| ==> StepSound(edges, steps[..i], steps[i])
    ensures forall i, j :: 0 <= i < j < |steps| ==> steps[i].nodeKey != steps[j].nodeKey
  {
    VisitSound(edges, startNode, {}, Walk({}, []));
    var steps := Visit(edges, startNode, {}, Walk({}, [])).steps;
    forall i | 0 <= i < |steps| ensures StepSound(edges, steps[..i], steps[i]) {
      StepsSoundAt(edges, steps, i);
    }
    forall i, j | 0 <= i < j < |steps| ensures steps[i].nodeKey != steps[j].nodeKey {
      StepsSoundAt(edges, steps, j);
      StepKeysAt(steps[..j], steps[i].nodeKey);
      assert steps[..j][i] == steps[i];
    }
    steps
  }

  // ---- completeness: every edge of every step leads to a node with a step

  /** Every outgoing edge of every node in `steps` leads into `avail`. */
  ghost predicate Closed<E>(edges: Dict<Edge<E>>, steps: seq<ExecutionStep>, avail: set<string>) {
    forall i, j :: 0 <= i < |steps| && 0 <= j < |WithSource(edges, steps[i].nodeKey)| ==>
      WithSource(edges, steps[i].nodeKey)[j].1.dst in avail
  }

  /** A call of `helper` only adds steps whose edges lead to resolved nodes or back onto
      the path it was called with. */
  lemma {:induction false} VisitClosed<E>(edges: Dict<Edge<E>>, nodeKey: string, seen: set<string>, w: Walk)
    requires nodeKey !in seen && nodeKey !in w.resolved && seen !! w.resolved
    requires WalkSound(edges, w) && Closed(edges, w.steps, w.resolved + seen)
    ensures var r := Visit(edges, nodeKey, seen, w); Closed(edges, r.steps, r.resolved + seen)
    decreases |(Destinations(edges) + {nodeKey}) - seen|, 0, 0
  {
    var path := seen + {nodeKey};
    MeasureShrinks(Destinations(edges), nodeKey, seen);
    VisitEdgesSound(edges, nodeKey, 0, path, w);
    VisitEdgesClosed(edges, nodeKey, 0, path, w);
    var walked := VisitEdges(edges, nodeKey, 0, path, w);
    var out := WithSource(edges, nodeKey);
    var step := ExecutionStep(nodeKey, Flags(out, path));
    var steps := walked.steps + [step];
    var avail := walked.resolved + path;
    forall i, j | 0 <= i < |steps| && 0 <= j < |WithSource(edges, steps[i].nodeKey)|
      ensures WithSource(edges, steps[i].nodeKey)[j].1.dst in avail
    {
      if i == |walked.steps| {
        assert Followed(edges, nodeKey, j, path, walked);
      } else {
        assert steps[i] == walked.steps[i];
      }
    }
  }

  /** The loop over the outgoing edges keeps every step's edges leading to resolved
      nodes or onto the path. */
  lemma {:induction false} VisitEdgesClosed<E>(edges: Dict<Edge<E>>, nodeKey: string, i: nat, path: set<string>, w: Walk)
    requires i <= |WithSource(edges, nodeKey)|
    requires path !! w.resolved && WalkSound(edges, w) && Closed(edges, w.steps, w.resolved + path)
    ensures var r := VisitEdges(edges, nodeKey, i, path, w); Closed(edges, r.steps, r.resolved + path)
    decreases |Destinations(edges) - path|, 1, |WithSource(edges, nodeKey)| - i
  {
    var out := WithSource(edges, nodeKey);
    if i < |out| {
      var dst := out[i].1.dst;
      DestinationsAbsorb(edges, nodeKey, i);
      var next := w;
      if dst !in w.resolved && dst !in path {
        VisitSound(edges, dst, path, w);
        VisitClosed(edges, dst, path, w);
        next := Visit(edges, dst, path, w);
      }
      VisitEdgesClosed(edges, nodeKey, i + 1, path, next);
      assert VisitEdges(edges, nodeKey, i, path, w) == VisitEdges(edges, nodeKey, i + 1, path, next);
    }
  }

  /** The result is complete: every outgoing edge of every step, whether or not it
      begins a cycle, leads to a node that has a step of its own. */
  lemma ResolveClosed<E>(edges: Dict<Edge<E>>, startNode: string)
    ensures var steps := Resolve(edges, startNode);
      forall i, j :: 0 <= i < |steps| && 0 <= j < |WithSource(edges, steps[i].nodeKey)| ==>
        exists k :: 0 <= k < |steps| && steps[k].nodeKey == WithSource(edges, steps[i].nodeKey)[j].1.dst
  {
    var w := Walk({}, []);
    VisitSound(edges, startNode, {}, w);
    VisitClosed(edges, startNode, {}, w);
    var r := Visit(edges, startNode, {}, w);
    var steps := r.steps;
    forall i, j | 0 <= i < |steps| && 0 <= j < |WithSource(edges, steps[i].nodeKey)|
      ensures exists k :: 0 <= k < |steps| && steps[k].nodeKey == WithSource(edges, steps[i].nodeKey)[j].1.dst
    {
      StepKeysAt(steps, WithSource(edges, steps[i].nodeKey)[j].1.dst);
    }
  }

  // ---- reachability: every step but the start node's is entered by a later step

  /** Some outgoing edge of `a` leads to `b`. */
  ghost predicate PointsTo<E>(edges: Dict<Edge<E>>, a: string, b: string) {
    exists j :: 0 <= j < |WithSource(edges, a)| && WithSource(edges, a)[j].1.dst == b
  }

  /** The node of the `m`-th step is the destination of an edge of some later step. */
  ghost predicate EnteredLater<E>(edges: Dict<Edge<E>>, steps: seq<ExecutionStep>, m: nat)
    requires m < |steps|
  {
    exists k :: m < k < |steps| && PointsTo(edges, steps[k].nodeKey, steps[m].nodeKey)
  }

  /** A call of `helper` only adds nodes it walked into: it appends at least its own
      step, last, and every step it adds before that is entered by an edge of a later
      step. */
  lemma {:induction false} VisitReaches<E>(edges: Dict<Edge<E>>, nodeKey: string, seen: set<string>, w: Walk)
    requires nodeKey !in seen
    ensures var r := Visit(edges, nodeKey, seen, w);
      && w.steps <= r.steps && |r.steps| > |w.steps| && r.steps[|r.steps| - 1].nodeKey == nodeKey
      && forall m :: |w.steps| <= m < |r.steps| - 1 ==> EnteredLater(edges, r.steps, m)
    decreases |(Destinations(edges) + {nodeKey}) - seen|, 0, 0
  {
    var path := seen + {nodeKey};
    MeasureShrinks(Destinations(edges), nodeKey, seen);
    VisitEdgesReaches(edges, nodeKey, 0, path, w);
    var walked := VisitEdges(edges, nodeKey, 0, path, w);
    var step := ExecutionStep(nodeKey, Flags(WithSource(edges, nodeKey), path));
    EnteredBySnoc(edges, walked.steps, step, |w.steps|);
  }

  /** The loop over the outgoing edges of `nodeKey` only appends steps, each entered by
      an edge of a later step or by an edge of `nodeKey`, whose step comes after them. */
  lemma {:induction false} VisitEdgesReaches<E>(edges: Dict<Edge<E>>, nodeKey: string, i: nat, path: set<string>, w: Walk)
    requires i <= |WithSource(edges, nodeKey)|
    ensures var r := VisitEdges(edges, nodeKey, i, path, w);
      && w.steps <= r.steps
      && forall m :: |w.steps| <= m < |r.steps| ==>
           PointsTo(edges, nodeKey, r.steps[m].nodeKey) || EnteredLater(edges, r.steps, m)
    decreases |Destinations(edges) - path|, 1, |WithSource(edges, nodeKey)| - i
  {
    var out := WithSource(edges, nodeKey);
    if i < |out| {
      var dst := out[i].1.dst;
      DestinationsAbsorb(edges, nodeKey, i);
      var followed := dst !in w.resolved && dst !in path;
      var next := w;
      if followed {
        VisitReaches(edges, dst, path, w);
        next := Visit(edges, dst, path, w);
      }
      VisitEdgesReaches(edges, nodeKey, i + 1, path, next);
      var r := VisitEdges(edges, nodeKey, i + 1, path, next);
      assert VisitEdges(edges, nodeKey, i, path, w) == r;
      if followed {
        assert out[i].1.dst == dst;
        EnteredInPrefix(edges, nodeKey, dst, next.steps, r.steps, |w.steps|);
      }
    }
  }

  /** Appending the step of `nodeKey` after steps that are each entered later or by an
      edge of `nodeKey` leaves every one of them entered by a later step. */
  lemma EnteredBySnoc<E>(edges: Dict<Edge<E>>, steps: seq<ExecutionStep>, step: ExecutionStep, from: nat)
    requires forall m :: from <= m < |steps| ==>
      PointsTo(edges, step.nodeKey, steps[m].nodeKey) || EnteredLater(edges, steps, m)
    ensures forall m :: from <= m < |steps| ==> EnteredLater(edges, steps + [step], m)
  {
    var all := steps + [step];
    forall m | from <= m < |steps| ensures EnteredLater(edges, all, m) {
      assert all[m] == steps[m];
      if EnteredLater(edges, steps, m) {
        var k :| m < k < |steps| && PointsTo(edges, steps[k].nodeKey, steps[m].nodeKey);
        assert all[k] == steps[k];
      } else {
        assert all[|steps|] == step;
      }
    }
  }

  /** Steps added by a call of `helper` on `dst`, an edge destination of `nodeKey`, stay
      entered later, or by `nodeKey`, once more steps follow them. */
  lemma EnteredInPrefix<E>(edges: Dict<Edge<E>>, nodeKey: string, dst: string,
                           steps: seq<ExecutionStep>, longer: seq<ExecutionStep>, from: nat)
    requires steps <= longer && from < |steps| && steps[|steps| - 1].nodeKey == dst
    requires PointsTo(edges, nodeKey, dst)
    requires forall m :: from <= m < |steps| - 1 ==> EnteredLater(edges, steps, m)
    ensures forall m :: from <= m < |steps| ==>
      PointsTo(edges, nodeKey, longer[m].nodeKey) || EnteredLater(edges, longer, m)
  {
    forall m | from <= m < |steps|
      ensures PointsTo(edges, nodeKey, longer[m].nodeKey) || EnteredLater(edges, longer, m)
    {
      assert longer[m] == steps[m];
      if m < |steps| - 1 {
        assert EnteredLater(edges, steps, m);
        var k :| m < k < |steps| && PointsTo(edges, steps[k].nodeKey, steps[m].nodeKey);
        assert longer[k] == steps[k];
      }
    }
  }

  /** A sound step `k` with an edge into the node of an earlier step `i` records that
      edge as not beginning a cycle. */
  lemma EntryEdgeForward<E>(edges: Dict<Edge<E>>, steps: seq<ExecutionStep>, i: nat, k: nat)
    requires i < k < |steps| && StepSound(edges, steps[..k], steps[k])
    requires PointsTo(edges, steps[k].nodeKey, steps[i].nodeKey)
    ensures exists j :: (0 <= j < |steps[k].edges| &&
      WithSource(edges, steps[k].nodeKey)[j].1.dst == steps[i].nodeKey && !steps[k].edges[j].beginsCycle)
  {
    var out := WithSource(edges, steps[k].nodeKey);
    var j :| 0 <= j < |out| && out[j].1.dst == steps[i].nodeKey;
    StepKeysAt(steps[..k], steps[i].nodeKey);
    assert steps[..k][i] == steps[i];
    assert !steps[k].edges[j].beginsCycle;
  }

  /** The result holds only nodes reachable from the start: every step except the last
      is the destination of an edge of a later step, and that edge does not begin a
      cycle. With ResolveClosed, the steps are exactly the nodes reachable from
      `startNode`. */
  lemma ResolveReachable<E>(edges: Dict<Edge<E>>, startNode: string)
    ensures var steps := Resolve(edges, startNode);
      forall i :: 0 <= i < |steps| - 1 ==>
        exists k, j :: (i < k < |steps| && 0 <= j < |steps[k].edges| &&
          WithSource(edges, steps[k].nodeKey)[j].1.dst == steps[i].nodeKey && !steps[k].edges[j].beginsCycle)
  {
    var steps := Resolve(edges, startNode);
    forall i | 0 <= i < |steps| - 1
      ensures exists k, j :: (i < k < |steps| && 0 <= j < |steps[k].edges| &&
        WithSource(edges, steps[k].nodeKey)[j].1.dst == steps[i].nodeKey && !steps[k].edges[j].beginsCycle)
    {
      var k := ResolveEnteredLater(edges, startNode, i);
      EntryEdgeForward(edges, steps, i, k);
    }
  }

  /** The node of any step but the last is the destination of an edge of a later step. */
  lemma ResolveEnteredLater<E>(edges: Dict<Edge<E>>, startNode: string, i: nat) returns (k: nat)
    requires i < |Resolve(edges, startNode)| - 1
    ensures var steps := Resolve(edges, startNode);
      i < k < |steps| && PointsTo(edges, steps[k].nodeKey, steps[i].nodeKey)
  {
    VisitReaches(edges, startNode, {}, Walk({}, []));
    var steps := Resolve(edges, startNode);
    assert EnteredLater(edges, steps, i);
    k :| i < k < |steps| && PointsTo(edges, steps[k].nodeKey, steps[i].nodeKey);
  }

  /** An edge that does not begin a cycle leads to a node whose step comes earlier. */
  lemma ForwardEdgeResolvedEarlier<E>(edges: Dict<Edge<E>>, startNode: string, i: nat, j: nat)
    requires i < |Resolve(edges, startNode)|
    requires j < |Resolve(edges, startNode)[i].edges|
    requires !Resolve(edges, startNode)[i].edges[j].beginsCycle
    ensures var steps := Resolve(edges, startNode);
      exists k :: 0 <= k < i && steps[k].nodeKey == WithSource(edges, steps[i].nodeKey)[j].1.dst
  {
    var steps := Resolve(edges, startNode);
    var dst := WithSource(edges, steps[i].nodeKey)[j].1.dst;
    assert StepSound(edges, steps[..i], steps[i]);
    StepKeysAt(steps[..i], dst);
    var k :| 0 <= k < i && steps[..i][k].nodeKey == dst;
    assert steps[k] == steps[..i][k];
  }

  /** An edge from a node to itself always begins a cycle. */
  lemma SelfLoopBeginsCycle<E>(edges: Dict<Edge<E>>, startNode: string, i: nat, j: nat)
    requires i < |Resolve(edges, startNode)|
    requires j < |Resolve(edges, startNode)[i].edges|
    requires WithSource(edges, Resolve(edges, startNode)[i].nodeKey)[j].1.dst == Resolve(edges, startNode)[i].nodeKey
    ensures Resolve(edges, startNode)[i].edges[j].beginsCycle
  {
    var steps := Resolve(edges, startNode);
    assert StepSound(edges, steps[..i], steps[i]);
  }

  /** A start node without outgoing edges resolves to its own step alone. */
  lemma LeafResolvesAlone<E>(edges: Dict<Edge<E>>, startNode: string)
    requires WithSource(edges, startNode) == []
    ensures Resolve(edges, startNode) == [ExecutionStep(startNode, [])]
  {
    var w := Walk({}, []);
    var path := {} + {startNode};
    assert VisitEdges(edges, startNode, 0, path, w) == w;
    assert Flags(WithSource(edges, startNode), path) == [];
    assert Visit(edges, startNode, {}, w).steps == [ExecutionStep(startNode, [])];
  }

  // ---- lemmas behind the walk's contracts

  lemma {:induction false} SubsetCard<T>(a: set<T>, b: set<T>)
    requires a <= b
    ensures |a| <= |b|
    decreases a
  {
    if a != {} {
      var x :| x in a;
      SubsetCard(a - {x}, b - {x});
    }
  }

  /** The path grows by the node being visited, which no earlier path held. */
  lemma MeasureShrinks(dests: set<string>, nodeKey: string, seen: set<string>)
    requires nodeKey !in seen
    ensures |dests - (seen + {nodeKey})| < |(dests + {nodeKey}) - seen|
  {
    var b := (dests + {nodeKey}) - seen;
    SubsetCard(dests - (seen + {nodeKey}), b - {nodeKey});
  }

  lemma {:induction false} InDestinations<E>(edges: Dict<Edge<E>>, i: nat)
    requires i < |edges|
    ensures edges[i].1.dst in Destinations(edges)
  {
    if i > 0 {
      InDestinations(edges[1..], i - 1);
    }
  }

  lemma OutgoingDestination<E>(edges: Dict<Edge<E>>, nodeKey: string, j: nat)
    requires j < |WithSource(edges, nodeKey)|
    ensures WithSource(edges, nodeKey)[j].1.dst in Destinations(edges)
  {
    var out := WithSource(edges, nodeKey);
    SubsequenceMembers(out, edges);
    assert out[j] in edges;
    var i :| 0 <= i < |edges| && edges[i] == out[j];
    InDestinations(edges, i);
  }

  /** Following an outgoing edge does not add to the destinations. */
  lemma DestinationsAbsorb<E>(edges: Dict<Edge<E>>, nodeKey: string, j: nat)
    requires j < |WithSource(edges, nodeKey)|
    ensures Destinations(edges) + {WithSource(edges, nodeKey)[j].1.dst} == Destinations(edges)
  {
    OutgoingDestination(edges, nodeKey, j);
  }

  lemma StepKeysSnoc(steps: seq<ExecutionStep>, step: ExecutionStep)
    ensures StepKeys(steps + [step]) == StepKeys(steps) + {step.nodeKey}
  {
    assert (steps + [step])[..|steps|] == steps;
  }

  /** Appending a sound step keeps the shared state sound. */
  lemma AppendSound<E>(edges: Dict<Edge<E>>, w: Walk, step: ExecutionStep)
    requires WalkSound(edges, w) && StepSound(edges, w.steps, step)
    ensures WalkSound(edges, Walk(w.resolved + {step.nodeKey}, w.steps + [step]))
  {
    StepKeysSnoc(w.steps, step);
    assert (w.steps + [step])[..|w.steps|] == w.steps;
  }

  /** Soundness of the whole sequence, step by step. */
  lemma {:induction false} StepsSoundAt<E>(edges: Dict<Edge<E>>, steps: seq<ExecutionStep>, i: nat)
    requires StepsSound(edges, steps) && i < |steps|
    ensures StepSound(edges, steps[..i], steps[i])
  {
    var n := |steps| - 1;
    if i < n {
      StepsSoundAt(edges, steps[..n], i);
      assert steps[..n][..i] == steps[..i];
    }
  }

  /** A node has a step exactly when it is the node of some step. */
  lemma {:induction false} StepKeysAt(steps: seq<ExecutionStep>, x: string)
    ensures x in StepKeys(steps) <==> exists i :: 0 <= i < |steps| && steps[i].nodeKey == x
  {
    if steps != [] {
      var n := |steps| - 1;
      StepKeysAt(steps[..n], x);
      if x in StepKeys(steps[..n]) {
        var i :| 0 <= i < n && steps[..n][i].nodeKey == x;
        assert steps[i].nodeKey == x;
      }
      if exists i :: 0 <= i < |steps| && steps[i].nodeKey == x {
        var i :| 0 <= i < |steps| && steps[i].nodeKey == x;
        if i < n {
          assert steps[..n][i].nodeKey == x;
        }
      }
    }
  }

  /** The step appended after the loop is sound: an edge's destination lacks a step
      exactly when it is on the path, since everything off the path was resolved. */
  lemma NewStepSound<E>(edges: Dict<Edge<E>>, nodeKey: string, seen: set<string>, w: Walk, walked: Walk)
    requires nodeKey !in seen && nodeKey !in w.resolved && seen !! w.resolved
    requires WalkSound(edges, walked) && w.resolved <= walked.resolved
    requires (walked.resolved - w.resolved) !! (seen + {nodeKey})
    requires forall j :: 0 <= j < |WithSource(edges, nodeKey)| ==>
               Followed(edges, nodeKey, j, seen + {nodeKey}, walked)
    ensures StepSound(edges, walked.steps, ExecutionStep(nodeKey, Flags(WithSource(edges, nodeKey), seen + {nodeKey})))
  {
    var path := seen + {nodeKey};
    var out := WithSource(edges, nodeKey);
    var flags := Flags(out, path);
    assert path !! walked.resolved;
    forall j | 0 <= j < |out|
      ensures flags[j].edgeKey == out[j].0
      ensures flags[j].beginsCycle <==> out[j].1.dst !in StepKeys(walked.steps)
    {
      assert Followed(edges, nodeKey, j, path, walked);
    }
  }

  /** One more edge pushes one more flag. */
  lemma FlagsSnoc<E>(out: Dict<Edge<E>>, i: nat, path: set<string>)
    requires i < |out|
    ensures Flags(out[..i + 1], path) == Flags(out[..i], path) + [EdgeFlag(out[i].0, out[i].1.dst in path)]
  {
    assert out[..i + 1][..i] == out[..i];
  }

  // ---- the walk as the source runs it

  class Resolver<N, E> {
    const graph: Graph<N, E>
    var resolved: set<string>
    var steps: seq<ExecutionStep>

    constructor (graph: Graph<N, E>)
      ensures this.graph == graph && resolved == {} && steps == []
    {
      this.graph := graph;
      resolved := {};
      steps := [];
    }

    /** The closure `helper(nodeKey, seen)`. */
    method Helper(nodeKey: string, seen: set<string>)
      requires graph.Valid()
      requires nodeKey !in seen
      modifies this
      ensures Walk(resolved, steps) == Visit(graph.edges, nodeKey, seen, old(Walk(resolved, steps)))
      decreases |(Destinations(graph.edges) + {nodeKey}) - seen|
    {
      var newSeen := seen + {nodeKey};
      var edges: seq<EdgeFlag> := [];
      var edgesFromCurrentNode := graph.EdgesWithSource(nodeKey);
      ghost var all := graph.edges;
      ghost var start := Walk(resolved, steps);
      MeasureShrinks(Destinations(all), nodeKey, seen);
      for i := 0 to |edgesFromCurrentNode|
        invariant VisitEdges(all, nodeKey, 0, newSeen, start) == VisitEdges(all, nodeKey, i, newSeen, Walk(resolved, steps))
        invariant edges == Flags(edgesFromCurrentNode[..i], newSeen)
      {
        var edgeKey := edgesFromCurrentNode[i].0;
        var dst := edgesFromCurrentNode[i].1.dst;
        var beginsCycle := dst in newSeen;
        if dst !in resolved {
          if !beginsCycle {
            DestinationsAbsorb(all, nodeKey, i);
            Helper(dst, newSeen);
          }
        }
        FlagsSnoc(edgesFromCurrentNode, i, newSeen);
        edges := edges + [EdgeFlag(edgeKey, beginsCycle)];
      }
      assert edgesFromCurrentNode[..|edgesFromCurrentNode|] == edgesFromCurrentNode;
      steps := steps + [ExecutionStep(nodeKey, edges)];
      resolved := resolved + {nodeKey};
    }
  }

  /** `resolveDependencies(graph, startNode)`. */
  method ResolveDependencies<N, E>(graph: Graph<N, E>, startNode: string) returns (steps: seq<ExecutionStep>)
    requires graph.Valid()
    ensures steps == Resolve(graph.edges, startNode)
  {
    var resolver := new Resolver(graph);
    resolver.Helper(startNode, {});
    steps := resolver.steps;
  }
}
