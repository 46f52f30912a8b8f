/** The graph of tests/fixtures/graphs.ts and what the queries and the dependency walk
    give on it: three nodes `a`, `b`, `c` and five edges, two of them loops on `c`. */
module Fixtures {
  import opened Dicts
  import opened KeyedGraph
  import opened DependencyResolver
  import PlainGraph

  function Graph1Nodes(): Dict<int> {
    [("a", 0), ("b", 1), ("c", 2)]
  }

  /** Edge metadata is `null` throughout, modelled as the unit value. */
  function Graph1Edges(): Dict<Edge<()>> {
    [ ("ab", Edge("a", "b", ())),
      ("ac", Edge("a", "c", ())),
      ("bc", Edge("b", "c", ())),
      ("cc", Edge("c", "c", ())),
      ("cc2", Edge("c", "c", ())) ]
  }

  /** The edges entering `c`, in the graph's order. */
  lemma EdgesIntoC()
    ensures WithDestination(Graph1Edges(), "c") ==
      [ ("ac", Edge("a", "c", ())),
        ("bc", Edge("b", "c", ())),
        ("cc", Edge("c", "c", ())),
        ("cc2", Edge("c", "c", ())) ]
  {
  }

  /** The edges leaving `a`, in the graph's order. */
  lemma EdgesFromA()
    ensures WithSource(Graph1Edges(), "a") == [("ab", Edge("a", "b", ())), ("ac", Edge("a", "c", ()))]
  {
  }

  /** The fixture is the plain `{ nodes, edges }` value of src/index.ts. */
  function Graph1(): PlainGraph.Plain<int, ()> {
    PlainGraph.Plain(Graph1Nodes(), Graph1Edges())
  }

  /** The fixture's nodes and edges have distinct keys. */
  lemma Graph1WellFormed()
    ensures PlainGraph.WellFormed(Graph1())
  {
    assert Keys(Graph1Edges()) == ["ab", "ac", "bc", "cc", "cc2"];
    assert Keys(Graph1Nodes()) == ["a", "b", "c"];
  }

  /** "finds edges with specified destination". */
  method QueryEdgesIntoC() returns (result: Dict<Edge<()>>)
    ensures result ==
      [ ("ac", Edge("a", "c", ())),
        ("bc", Edge("b", "c", ())),
        ("cc", Edge("c", "c", ())),
        ("cc2", Edge("c", "c", ())) ]
  {
    Graph1WellFormed();
    result := PlainGraph.EdgesWithDestination("c", Graph1());
    EdgesIntoC();
  }

  /** "finds edges with specified source". */
  method QueryEdgesFromA() returns (result: Dict<Edge<()>>)
    ensures result == [("ab", Edge("a", "b", ())), ("ac", Edge("a", "c", ()))]
  {
    Graph1WellFormed();
    result := PlainGraph.EdgesWithSource("a", Graph1());
    EdgesFromA();
  }

  function StepC(): ExecutionStep {
    ExecutionStep("c", [EdgeFlag("cc", true), EdgeFlag("cc2", true)])
  }

  function StepB(): ExecutionStep {
    ExecutionStep("b", [EdgeFlag("bc", false)])
  }

  function StepA(): ExecutionStep {
    ExecutionStep("a", [EdgeFlag("ab", false), EdgeFlag("ac", false)])
  }

  lemma EdgesFromB()
    ensures WithSource(Graph1Edges(), "b") == [("bc", Edge("b", "c", ()))]
  {
  }

  lemma EdgesFromC()
    ensures WithSource(Graph1Edges(), "c") == [("cc", Edge("c", "c", ())), ("cc2", Edge("c", "c", ()))]
  {
  }

  /** The loop of `helper("c", {a, b})`: both loops on `c` lead back onto the path and
      are not followed. */
  lemma LoopAtC()
    ensures VisitEdges(Graph1Edges(), "c", 0, {} + {"a"} + {"b"} + {"c"}, Walk({}, [])) == Walk({}, [])
  {
    var g := Graph1Edges();
    var path := {} + {"a"} + {"b"} + {"c"};
    var w0 := Walk({}, []);
    EdgesFromC();
    assert VisitEdges(g, "c", 2, path, w0) == w0;
    assert VisitEdges(g, "c", 1, path, w0) == w0;
  }

  /** Both loops on `c` are flagged as beginning a cycle. */
  lemma FlagsAtC()
    ensures Flags(WithSource(Graph1Edges(), "c"), {} + {"a"} + {"b"} + {"c"}) == StepC().edges
  {
    EdgesFromC();
    FlagsOfTwo(WithSource(Graph1Edges(), "c"), {} + {"a"} + {"b"} + {"c"});
  }

  /** The flags of two outgoing edges, spelled out. */
  lemma FlagsOfTwo<E>(out: Dict<Edge<E>>, path: set<string>)
    requires |out| == 2
    ensures Flags(out, path) == [EdgeFlag(out[0].0, out[0].1.dst in path), EdgeFlag(out[1].0, out[1].1.dst in path)]
  {
    var r := Flags(out, path);
    assert r[0] == EdgeFlag(out[0].0, out[0].1.dst in path);
    assert r[1] == EdgeFlag(out[1].0, out[1].1.dst in path);
  }

  /** `helper("c", {a, b})` appends the step of `c`. */
  lemma WalkFromC()
    ensures Visit(Graph1Edges(), "c", {} + {"a"} + {"b"}, Walk({}, [])) == Walk({} + {"c"}, [StepC()])
  {
    LoopAtC();
    FlagsAtC();
  }

  /** The loop of `helper("b", {a})`: the edge to `c` is followed. */
  lemma LoopAtB()
    ensures VisitEdges(Graph1Edges(), "b", 0, {} + {"a"} + {"b"}, Walk({}, [])) == Walk({} + {"c"}, [StepC()])
  {
    var g := Graph1Edges();
    var path := {} + {"a"} + {"b"};
    var w := Walk({} + {"c"}, [StepC()]);
    EdgesFromB();
    WalkFromC();
    assert VisitEdges(g, "b", 1, path, w) == w;
  }

  /** The edge from `b` to `c` is not flagged. */
  lemma FlagsAtB()
    ensures Flags(WithSource(Graph1Edges(), "b"), {} + {"a"} + {"b"}) == StepB().edges
  {
    EdgesFromB();
  }

  /** `helper("b", {a})` resolves `c` and then `b`. */
  lemma WalkFromB()
    ensures Visit(Graph1Edges(), "b", {} + {"a"}, Walk({}, [])) == Walk({} + {"c"} + {"b"}, [StepC(), StepB()])
  {
    LoopAtB();
    FlagsAtB();
  }

  /** The end of the loop of `helper("a", {})`: `c` is resolved by the time `ac` is
      reached, so `ac` is not followed. */
  lemma LoopAtATail()
    ensures VisitEdges(Graph1Edges(), "a", 1, {} + {"a"}, Walk({} + {"c"} + {"b"}, [StepC(), StepB()]))
         == Walk({} + {"c"} + {"b"}, [StepC(), StepB()])
  {
    var g := Graph1Edges();
    var w := Walk({} + {"c"} + {"b"}, [StepC(), StepB()]);
    EdgesFromA();
    assert VisitEdges(g, "a", 2, {} + {"a"}, w) == w;
  }

  /** The loop of `helper("a", {})`: `ab` is followed, which resolves `c` and `b`. */
  lemma LoopAtA()
    ensures VisitEdges(Graph1Edges(), "a", 0, {} + {"a"}, Walk({}, [])) == Walk({} + {"c"} + {"b"}, [StepC(), StepB()])
  {
    EdgesFromA();
    WalkFromB();
    LoopAtATail();
  }

  /** Neither edge leaving `a` is flagged: `b` and `c` are off the path. */
  lemma FlagsAtA()
    ensures Flags(WithSource(Graph1Edges(), "a"), {} + {"a"}) == StepA().edges
  {
    EdgesFromA();
    FlagsOfTwo(WithSource(Graph1Edges(), "a"), {} + {"a"});
  }

  /** Walking from `a`: `c` comes first, both its loops flagged as cycles, then `b`,
      then `a`, whose edge to the already-resolved `c` is not a cycle. */
  lemma ResolveFromA()
    ensures Resolve(Graph1Edges(), "a") == [StepC(), StepB(), StepA()]
  {
    LoopAtA();
    FlagsAtA();
  }

  // ---- a two-node cycle

  function CycleEdges(): Dict<Edge<()>> {
    [("ab", Edge("a", "b", ())), ("ba", Edge("b", "a", ()))]
  }

  /** The loop of `helper("b", {a})`: the edge back to `a` leads onto the path, so it is
      flagged and not followed. */
  lemma CycleLoopAtB()
    ensures VisitEdges(CycleEdges(), "b", 0, {} + {"a"} + {"b"}, Walk({}, [])) == Walk({}, [])
    ensures Flags(WithSource(CycleEdges(), "b"), {} + {"a"} + {"b"}) == [EdgeFlag("ba", true)]
  {
    var g := CycleEdges();
    var path := {} + {"a"} + {"b"};
    var w0 := Walk({}, []);
    assert WithSource(g, "b") == [("ba", Edge("b", "a", ()))];
    assert VisitEdges(g, "b", 1, path, w0) == w0;
  }

  /** The loop of `helper("a", {})`: the edge to `b` is followed and not flagged. */
  lemma CycleLoopAtA()
    ensures VisitEdges(CycleEdges(), "a", 0, {} + {"a"}, Walk({}, [])) ==
      Walk({} + {"b"}, [ExecutionStep("b", [EdgeFlag("ba", true)])])
    ensures Flags(WithSource(CycleEdges(), "a"), {} + {"a"}) == [EdgeFlag("ab", false)]
  {
    var g := CycleEdges();
    var path := {} + {"a"};
    var w0 := Walk({}, []);
    var w := Walk({} + {"b"}, [ExecutionStep("b", [EdgeFlag("ba", true)])]);
    CycleLoopAtB();
    assert Visit(g, "b", path, w0) == w;
    assert WithSource(g, "a") == [("ab", Edge("a", "b", ()))];
    assert VisitEdges(g, "a", 1, path, w) == w;
  }

  /** Walking from `a` around the cycle `a -> b -> a`: `b` comes first with its edge back
      to `a` beginning a cycle, then `a`. */
  lemma ResolveCycle()
    ensures Resolve(CycleEdges(), "a") ==
      [ ExecutionStep("b", [EdgeFlag("ba", true)]),
        ExecutionStep("a", [EdgeFlag("ab", false)]) ]
  {
    CycleLoopAtA();
  }

  // ---- mapEdges reads edges under the node keys

  /** The fixture graph has a node `a` but no edge keyed `a`, so the loop of mapEdges as
      written reads `undefined.metadata` on its first turn. */
  lemma Graph1OutsideMapEdges()
    ensures "a" in Keys(Graph1Nodes()) && "a" !in Keys(Graph1Edges())
  {
  }

  function TwoEdges(): Dict<Edge<int>> {
    [("x", Edge("p", "q", 0)), ("y", Edge("q", "p", 1))]
  }

  function Bump(): (int, string, string) -> int {
    (m: int, s: string, d: string) => m + 1
  }

  /** With the single node key `x`, mapEdges as written maps the edge `x` and never
      writes the edge `y`; mapping every edge writes `y` with its metadata bumped. */
  lemma MapEdgesSkipsEdge()
    ensures Get(Overlay([], RemappedAt(["x"], TwoEdges(), Bump())), "y") == None
    ensures Get(Overlay([], MapValues(TwoEdges(), Remap(Bump()))), "y") == Some(Edge("q", "p", 2))
  {
    var d := TwoEdges();
    assert Keys(d) == ["x", "y"];
    assert RemappedAt(["x"], d, Bump()) == [("x", Edge("p", "q", 1))];
    OverlayGet([], RemappedAt(["x"], d, Bump()), "y");
    MappedLookup([], d, Remap(Bump()), "y");
  }
}
