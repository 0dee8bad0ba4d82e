/** Both classes implement the same graph interface and are exercised by the
    same instance tests. On the abstract graph, this module shows that a
    single `set` gives the same graph on the two classes exactly when the
    weight is positive, the edge is a self-loop or the target is a vertex,
    and that a sequence made only of such calls runs alike on both (a
    sufficient condition for sequences, not a characterisation). It also
    drives the two classes through any sequence of calls. */
module Interchange {
  import opened GraphSpec
  import EdgesGraph
  import VerticesGraph

  /** Which of the two classes a run goes through. */
  datatype Representation = EdgeList | VertexList

  /** One call of the graph interface that changes the graph. */
  datatype Op =
    | AddOp(vertex: Label)
    | SetOp(source: Label, target: Label, weight: int)
    | RemoveOp(vertex: Label)

  /** What such a call returns: `add` and `remove` a flag, `set` the
      previous weight. */
  datatype Reply = Flag(ok: bool) | Previous(weight: int)

  /** The graph after one call, and what the call returned. */
  datatype Outcome = Outcome(graph: Graph, reply: Reply)

  /** The graph after a sequence of calls, and every reply in order. */
  datatype Trace = Trace(graph: Graph, replies: seq<Reply>)

  /** `set` on the abstract graph. The edge-list class adds both endpoints
      whatever the weight; the vertex-list class adds the target only when
      the weight is positive. */
  function SetGraph(rep: Representation, g: Graph, s: Label, t: Label, w: int): Graph {
    PutWeight(if rep == EdgeList || w > 0 then AddVertex(AddVertex(g, s), t) else AddVertex(g, s),
              s, t, w)
  }

  /** What `set` promises on either class: the source becomes a vertex, the
      target does too unless the vertex-list class is given a weight <= 0,
      no other vertex changes, the edge from `s` to `t` has the new weight
      (0 meaning none), no other edge changes, and the invariant holds. */
  lemma SetGraphMeaning(rep: Representation, g: Graph, s: Label, t: Label, w: int)
    ensures var r := SetGraph(rep, g, s, t, w);
      && s in r.vertices
      && (t in r.vertices <==> t in g.vertices || t == s || w > 0 || rep == EdgeList)
      && (forall x | x != s && x != t :: x in r.vertices <==> x in g.vertices)
      && Weight(r, s, t) == (if w > 0 then w else 0)
      && (forall x, y | (x, y) != (s, t) :: Weight(r, x, y) == Weight(g, x, y))
      && (Valid(g) ==> Valid(r))
  {
    var r := SetGraph(rep, g, s, t, w);
    forall x, y | (x, y) != (s, t) ensures Weight(r, x, y) == Weight(g, x, y) {
    }
  }

  /** One call: the graph after it and what it returns. */
  function Step(rep: Representation, g: Graph, op: Op): Outcome {
    match op
    case AddOp(v) => Outcome(AddVertex(g, v), Flag(v !in g.vertices))
    case SetOp(s, t, w) => Outcome(SetGraph(rep, g, s, t, w), Previous(Weight(g, s, t)))
    case RemoveOp(v) => Outcome(RemoveVertex(g, v), Flag(v in g.vertices))
  }

  /** Every call keeps the invariant; `add` reports whether the vertex was
      new, `remove` whether it was there, and `set` returns 0 exactly when
      there was no edge. */
  lemma StepMeaning(rep: Representation, g: Graph, op: Op)
    ensures var r := Step(rep, g, op);
      && (Valid(g) ==> Valid(r.graph))
      && (op.AddOp? ==> r.reply == Flag(op.vertex !in g.vertices) && op.vertex in r.graph.vertices)
      && (op.RemoveOp? ==> r.reply == Flag(op.vertex in g.vertices) && op.vertex !in r.graph.vertices)
      && (op.SetOp? && Valid(g) ==>
            r.reply.Previous? && (r.reply.weight == 0 <==> (op.source, op.target) !in g.weights))
  {
    if op.SetOp? {
      SetGraphMeaning(rep, g, op.source, op.target, op.weight);
    }
  }

  /** A sequence of calls, first to last: the final graph and every reply. */
  function Run(rep: Representation, g: Graph, ops: seq<Op>): (r: Trace)
    ensures |r.replies| == |ops|
    decreases |ops|
  {
    if ops == [] then Trace(g, [])
    else
      var before := Run(rep, g, ops[..|ops| - 1]);
      var after := Step(rep, before.graph, ops[|ops| - 1]);
      Trace(after.graph, before.replies + [after.reply])
  }

  /** Any sequence of calls keeps the invariant. */
  lemma {:induction false} RunKeepsValid(rep: Representation, g: Graph, ops: seq<Op>)
    requires Valid(g)
    ensures Valid(Run(rep, g, ops).graph)
    decreases |ops|
  {
    if ops != [] {
      RunKeepsValid(rep, g, ops[..|ops| - 1]);
      StepMeaning(rep, Run(rep, g, ops[..|ops| - 1]).graph, ops[|ops| - 1]);
    }
  }

  /** A call on which the two classes agree from graph `g`: anything but a
      `set` that would have to add a missing target with a weight <= 0. */
  predicate StepAgrees(g: Graph, op: Op) {
    op.SetOp? ==> op.weight > 0 || op.target == op.source || op.target in g.vertices
  }

  /** Every call of `ops`, run from `g`, is one on which the classes agree. */
  predicate RunAgrees(g: Graph, ops: seq<Op>)
    decreases |ops|
  {
    ops == [] ||
    (RunAgrees(g, ops[..|ops| - 1]) &&
     StepAgrees(Run(EdgeList, g, ops[..|ops| - 1]).graph, ops[|ops| - 1]))
  }

  // ---------------------------------------------------------------------
  // One call

  /** The two `set`s give the same graph exactly when the weight is
      positive, the edge is a self-loop, or the target is already a vertex. */
  lemma SetAgreesExactly(g: Graph, s: Label, t: Label, w: int)
    ensures SetGraph(EdgeList, g, s, t, w) == SetGraph(VertexList, g, s, t, w)
            <==> w > 0 || t == s || t in g.vertices
  {
    if w <= 0 && (t == s || t in g.vertices) {
      assert AddVertex(AddVertex(g, s), t).vertices == AddVertex(g, s).vertices;
    }
  }

  /** Every other call gives the same graph and reply on both classes. */
  lemma StepsAgree(g: Graph, op: Op)
    requires StepAgrees(g, op)
    ensures Step(EdgeList, g, op) == Step(VertexList, g, op)
  {
    if op.SetOp? {
      SetAgreesExactly(g, op.source, op.target, op.weight);
    }
  }

  /** The smallest disagreement: `set("A", "B", 0)` on an empty graph leaves
      `B` a vertex of the edge-list class but not of the vertex-list class,
      and neither has an edge. */
  lemma SetWithoutWeightDiverges()
    ensures Run(EdgeList, Empty(), [SetOp("A", "B", 0)]).graph == Graph({"A", "B"}, map[])
    ensures Run(VertexList, Empty(), [SetOp("A", "B", 0)]).graph == Graph({"A"}, map[])
    ensures Run(EdgeList, Empty(), [SetOp("A", "B", 0)]).replies
            == Run(VertexList, Empty(), [SetOp("A", "B", 0)]).replies == [Previous(0)]
  {
    var ops := [SetOp("A", "B", 0)];
    assert ops[..0] == [];
  }

  // ---------------------------------------------------------------------
  // Sequences of calls

  /** Running one more call appends its reply. */
  lemma RunSnoc(rep: Representation, g: Graph, ops: seq<Op>, op: Op)
    ensures Run(rep, g, ops + [op])
            == Trace(Step(rep, Run(rep, g, ops).graph, op).graph,
                     Run(rep, g, ops).replies + [Step(rep, Run(rep, g, ops).graph, op).reply])
  {
    assert (ops + [op])[..|ops|] == ops;
  }

  /** Running the first `i + 1` calls is running the first `i` and then
      call `i`. */
  lemma RunExtend(rep: Representation, g: Graph, ops: seq<Op>, i: int)
    requires 0 <= i < |ops|
    ensures Run(rep, g, ops[..i + 1])
            == Trace(Step(rep, Run(rep, g, ops[..i]).graph, ops[i]).graph,
                     Run(rep, g, ops[..i]).replies + [Step(rep, Run(rep, g, ops[..i]).graph, ops[i]).reply])
  {
    assert ops[..i + 1] == ops[..i] + [ops[i]];
    RunSnoc(rep, g, ops[..i], ops[i]);
  }

  /** A run from `graphs[0]` passes through `graphs`, giving `replies`,
      when every call takes each graph to the next with that reply. */
  lemma {:induction false} RunFollows(rep: Representation, ops: seq<Op>, graphs: seq<Graph>,
                                      replies: seq<Reply>, k: nat)
    requires |graphs| == |ops| + 1 && |replies| == |ops| && k <= |ops|
    requires forall i | 0 <= i < |ops| :: Step(rep, graphs[i], ops[i]) == Outcome(graphs[i + 1], replies[i])
    ensures Run(rep, graphs[0], ops[..k]) == Trace(graphs[k], replies[..k])
  {
    if k == 0 {
      assert ops[..0] == [];
    } else {
      RunFollows(rep, ops, graphs, replies, k - 1);
      RunSnoc(rep, graphs[0], ops[..k - 1], ops[k - 1]);
      assert ops[..k] == ops[..k - 1] + [ops[k - 1]];
      assert replies[..k] == replies[..k - 1] + [replies[k - 1]];
    }
  }

  /** Calls on which the classes agree, one after another, leave the same
      graph and give the same replies on both classes. */
  lemma {:induction false} RunsAgree(g: Graph, ops: seq<Op>)
    requires RunAgrees(g, ops)
    ensures Run(EdgeList, g, ops) == Run(VertexList, g, ops)
    decreases |ops|
  {
    if ops != [] {
      var init := ops[..|ops| - 1];
      RunsAgree(g, init);
      StepsAgree(Run(EdgeList, g, init).graph, ops[|ops| - 1]);
    }
  }

  /** Every `set` with a positive weight is one on which the classes agree,
      so a sequence of such calls runs alike on both. */
  lemma {:induction false} PositiveRunAgrees(g: Graph, ops: seq<Op>)
    requires forall i | 0 <= i < |ops| :: ops[i].SetOp? ==> ops[i].weight > 0
    ensures RunAgrees(g, ops)
    decreases |ops|
  {
    if ops != [] {
      var init := ops[..|ops| - 1];
      assert forall i | 0 <= i < |init| :: init[i] == ops[i];
      PositiveRunAgrees(g, init);
    }
  }

  // ---------------------------------------------------------------------
  // The shared story test, for any three distinct labels a, b, c

  /** A `set` with a positive weight adds both endpoints and stores the
      weight, on either class. */
  lemma SetPositive(rep: Representation, g: Graph, s: Label, t: Label, w: int)
    requires w > 0
    ensures Step(rep, g, SetOp(s, t, w))
            == Outcome(Graph(g.vertices + {s, t}, g.weights[(s, t) := w]), Previous(Weight(g, s, t)))
  {
    assert AddVertex(AddVertex(g, s), t).vertices == g.vertices + {s, t};
  }

  /** The calls of the mutation story. */
  function StoryOps(a: Label, b: Label, c: Label): seq<Op> {
    [SetOp(a, b, 10), SetOp(a, c, 20), SetOp(b, c, 30), SetOp(a, b, 5), RemoveOp(b), SetOp(a, c, 0)]
  }

  /** The graphs the story passes through. */
  function StoryGraph(a: Label, b: Label, c: Label, k: nat): Graph
    requires k <= 6
  {
    match k
    case 0 => Empty()
    case 1 => Graph({a, b}, map[(a, b) := 10])
    case 2 => Graph({a, b, c}, map[(a, b) := 10, (a, c) := 20])
    case 3 => Graph({a, b, c}, map[(a, b) := 10, (a, c) := 20, (b, c) := 30])
    case 4 => Graph({a, b, c}, map[(a, b) := 10, (a, c) := 20, (b, c) := 30][(a, b) := 5])
    case 5 => Graph({a, c}, map[(a, c) := 20])
    case 6 => Graph({a, c}, map[])
  }

  /** The replies the story expects. */
  function StoryReplies(): seq<Reply> {
    [Previous(0), Previous(0), Previous(0), Previous(10), Flag(true), Previous(20)]
  }

  /** The first four calls of the story add edges or change a weight. */
  lemma StorySetStep(rep: Representation, a: Label, b: Label, c: Label, k: nat)
    requires a != b && b != c && a != c && k < 4
    ensures Step(rep, StoryGraph(a, b, c, k), StoryOps(a, b, c)[k])
            == Outcome(StoryGraph(a, b, c, k + 1), StoryReplies()[k])
  {
    var g := StoryGraph(a, b, c, k);
    var op := StoryOps(a, b, c)[k];
    SetPositive(rep, g, op.source, op.target, op.weight);
    assert g.vertices + {op.source, op.target} == StoryGraph(a, b, c, k + 1).vertices;
  }

  /** The fifth call removes `b` and the edges at it. */
  lemma StoryRemoveStep(rep: Representation, a: Label, b: Label, c: Label)
    requires a != b && b != c && a != c
    ensures Step(rep, StoryGraph(a, b, c, 4), RemoveOp(b)) == Outcome(StoryGraph(a, b, c, 5), Flag(true))
  {
    var g4 := StoryGraph(a, b, c, 4);
    var r := RemoveVertex(g4, b);
    assert r.vertices == {a, c};
    assert r.weights.Keys == {(a, c)};
    assert r.weights == map[(a, c) := 20];
  }

  /** Each call of the story takes its graph to the next one and gives the
      reply the story expects. */
  lemma StoryStep(rep: Representation, a: Label, b: Label, c: Label, k: nat)
    requires a != b && b != c && a != c && k < 6
    ensures Step(rep, StoryGraph(a, b, c, k), StoryOps(a, b, c)[k])
            == Outcome(StoryGraph(a, b, c, k + 1), StoryReplies()[k])
  {
    if k < 4 {
      StorySetStep(rep, a, b, c, k);
    } else if k == 4 {
      StoryRemoveStep(rep, a, b, c);
    } else {
      StoryClearStep(rep, a, b, c);
    }
  }

  /** The last call clears the edge from `a` to `c`. */
  lemma StoryClearStep(rep: Representation, a: Label, b: Label, c: Label)
    requires a != b && b != c && a != c
    ensures Step(rep, StoryGraph(a, b, c, 5), SetOp(a, c, 0)) == Outcome(StoryGraph(a, b, c, 6), Previous(20))
  {
    var r := SetGraph(rep, StoryGraph(a, b, c, 5), a, c, 0);
    assert r.vertices == {a, c};
    assert r.weights == map[];
  }

  /** Neither query finds anything in a graph without edges. */
  lemma NoEdgesNoQueries(vs: set<Label>, x: Label)
    ensures Targets(Graph(vs, map[]), x) == map[] && Sources(Graph(vs, map[]), x) == map[]
  {
    forall y ensures y !in Targets(Graph(vs, map[]), x) && y !in Sources(Graph(vs, map[]), x) {
      TargetsExact(Graph(vs, map[]), x, y);
      SourcesExact(Graph(vs, map[]), x, y);
    }
  }

  /** Overwriting the first of two entries of a map. */
  lemma Overwrite(x: Label, y: Label, u: int, v: int, w: int)
    requires x != y
    ensures map[x := u, y := v][x := w] == map[x := w, y := v]
  {
    var m, m' := map[x := u, y := v][x := w], map[x := w, y := v];
    assert m.Keys == m'.Keys;
  }

  /** `targets(a)` after the first two calls of the story. */
  lemma TargetsAfterTwoEdges(a: Label, b: Label, c: Label)
    requires a != b && b != c && a != c
    ensures Targets(StoryGraph(a, b, c, 2), a) == map[b := 10, c := 20]
  {
    var g0 := Graph({a, b, c}, map[]);
    var g1 := Graph(g0.vertices, g0.weights[(a, b) := 10]);
    var g2 := Graph(g1.vertices, g1.weights[(a, c) := 20]);
    assert StoryGraph(a, b, c, 2) == g2;
    NoEdgesNoQueries(g0.vertices, a);
    TargetsAfterWrite(g0, a, b, 10, a);
    TargetsAfterWrite(g1, a, c, 20, a);
  }

  /** `sources(c)` after the first three calls of the story. */
  lemma SourcesAfterThirdEdge(a: Label, b: Label, c: Label)
    requires a != b && b != c && a != c
    ensures Sources(StoryGraph(a, b, c, 3), c) == map[a := 20, b := 30]
  {
    var g0 := Graph({a, b, c}, map[]);
    var g1 := Graph(g0.vertices, g0.weights[(a, b) := 10]);
    var g2 := Graph(g1.vertices, g1.weights[(a, c) := 20]);
    var g3 := Graph(g2.vertices, g2.weights[(b, c) := 30]);
    assert StoryGraph(a, b, c, 3) == g3;
    NoEdgesNoQueries(g0.vertices, c);
    SourcesAfterWrite(g0, a, b, 10, c);
    SourcesAfterWrite(g1, a, c, 20, c);
    SourcesAfterWrite(g2, b, c, 30, c);
  }

  /** `targets(a)` after the weight of the edge from `a` to `b` changes. */
  lemma TargetsAfterUpdate(a: Label, b: Label, c: Label)
    requires a != b && b != c && a != c
    ensures Targets(StoryGraph(a, b, c, 4), a) == map[b := 5, c := 20]
  {
    var g2 := StoryGraph(a, b, c, 2);
    var g3 := Graph(g2.vertices, g2.weights[(b, c) := 30]);
    var g4 := Graph(g3.vertices, g3.weights[(a, b) := 5]);
    assert StoryGraph(a, b, c, 4) == g4;
    TargetsAfterTwoEdges(a, b, c);
    TargetsAfterWrite(g2, b, c, 30, a);
    TargetsAfterWrite(g3, a, b, 5, a);
    Overwrite(b, c, 10, 20, 5);
  }

  /** `targets(a)` and `sources(c)` once `b` is gone. */
  lemma QueriesAfterRemovingB(a: Label, b: Label, c: Label)
    requires a != b && b != c && a != c
    ensures Targets(StoryGraph(a, b, c, 5), a) == map[c := 20]
    ensures Sources(StoryGraph(a, b, c, 5), c) == map[a := 20]
  {
    var g6 := Graph({a, c}, map[]);
    var g5 := Graph(g6.vertices, g6.weights[(a, c) := 20]);
    assert StoryGraph(a, b, c, 5) == g5;
    NoEdgesNoQueries(g6.vertices, a);
    NoEdgesNoQueries(g6.vertices, c);
    TargetsAfterWrite(g6, a, c, 20, a);
    SourcesAfterWrite(g6, a, c, 20, c);
  }

  /** The story after `set(a, b, 10)` and `set(a, c, 20)`, on either class
      and for any three distinct labels. */
  lemma StoryAfterTwoEdges(rep: Representation, a: Label, b: Label, c: Label)
    requires a != b && b != c && a != c
    ensures Run(rep, Empty(), StoryOps(a, b, c)[..2]).graph.vertices == {a, b, c}
    ensures Targets(Run(rep, Empty(), StoryOps(a, b, c)[..2]).graph, a) == map[b := 10, c := 20]
  {
    StoryRun(rep, a, b, c, 2);
    assert StoryGraph(a, b, c, 2).vertices == {a, b, c};
    TargetsAfterTwoEdges(a, b, c);
  }

  /** The story after `set(b, c, 30)`. */
  lemma StoryAfterThirdEdge(rep: Representation, a: Label, b: Label, c: Label)
    requires a != b && b != c && a != c
    ensures Sources(Run(rep, Empty(), StoryOps(a, b, c)[..3]).graph, c) == map[a := 20, b := 30]
  {
    StoryRun(rep, a, b, c, 3);
    SourcesAfterThirdEdge(a, b, c);
  }

  /** The story after `set(a, b, 5)`, which reports the old weight 10. */
  lemma StoryAfterUpdate(rep: Representation, a: Label, b: Label, c: Label)
    requires a != b && b != c && a != c
    ensures Run(rep, Empty(), StoryOps(a, b, c)[..4]).replies[3] == Previous(10)
    ensures Targets(Run(rep, Empty(), StoryOps(a, b, c)[..4]).graph, a) == map[b := 5, c := 20]
  {
    var r := Run(rep, Empty(), StoryOps(a, b, c)[..4]);
    StoryRun(rep, a, b, c, 4);
    assert r == Trace(StoryGraph(a, b, c, 4), StoryReplies()[..4]);
    assert r.replies[3] == StoryReplies()[3] == Previous(10);
    TargetsAfterUpdate(a, b, c);
  }

  /** The story after `remove(b)`, which reports that `b` was there. */
  lemma StoryAfterRemove(rep: Representation, a: Label, b: Label, c: Label)
    requires a != b && b != c && a != c
    ensures Run(rep, Empty(), StoryOps(a, b, c)[..5]).replies[4] == Flag(true)
    ensures Run(rep, Empty(), StoryOps(a, b, c)[..5]).graph.vertices == {a, c}
    ensures Targets(Run(rep, Empty(), StoryOps(a, b, c)[..5]).graph, a) == map[c := 20]
    ensures Sources(Run(rep, Empty(), StoryOps(a, b, c)[..5]).graph, c) == map[a := 20]
  {
    StoryRun(rep, a, b, c, 5);
    assert StoryGraph(a, b, c, 5).vertices == {a, c};
    QueriesAfterRemovingB(a, b, c);
  }

  /** The whole story: every reply, and no edge left after `set(a, c, 0)`. */
  lemma StoryEnd(rep: Representation, a: Label, b: Label, c: Label)
    requires a != b && b != c && a != c
    ensures Run(rep, Empty(), StoryOps(a, b, c)).replies
            == [Previous(0), Previous(0), Previous(0), Previous(10), Flag(true), Previous(20)]
    ensures Targets(Run(rep, Empty(), StoryOps(a, b, c)).graph, a) == map[]
    ensures Sources(Run(rep, Empty(), StoryOps(a, b, c)).graph, c) == map[]
  {
    StoryRun(rep, a, b, c, 6);
    assert StoryOps(a, b, c)[..6] == StoryOps(a, b, c);
    assert StoryReplies()[..6] == StoryReplies();
    assert StoryGraph(a, b, c, 6) == Graph({a, c}, map[]);
    NoEdgesNoQueries({a, c}, a);
    NoEdgesNoQueries({a, c}, c);
  }

  /** After its first `k` calls the story has reached its `k`-th graph,
      with the first `k` expected replies. */
  lemma StoryRun(rep: Representation, a: Label, b: Label, c: Label, k: nat)
    requires a != b && b != c && a != c && k <= 6
    ensures Run(rep, Empty(), StoryOps(a, b, c)[..k]) == Trace(StoryGraph(a, b, c, k), StoryReplies()[..k])
  {
    var ops, replies := StoryOps(a, b, c), StoryReplies();
    var graphs := seq(7, i requires 0 <= i <= 6 => StoryGraph(a, b, c, i));
    forall i | 0 <= i < 6 ensures Step(rep, graphs[i], ops[i]) == Outcome(graphs[i + 1], replies[i]) {
      StoryStep(rep, a, b, c, i);
    }
    RunFollows(rep, ops, graphs, replies, k);
  }

  // ---------------------------------------------------------------------
  // Driving the two classes

  /** Performs one call on an edge-list graph. */
  method ApplyToEdges(graph: EdgesGraph.ConcreteEdgesGraph, op: Op) returns (reply: Reply)
    requires graph.Valid()
    modifies graph
    ensures graph.Valid()
    ensures Outcome(graph.AF(), reply) == Step(EdgeList, old(graph.AF()), op)
  {
    match op
    case AddOp(v) =>
      var added := graph.Add(v);
      reply := Flag(added);
    case SetOp(s, t, w) =>
      var previous := graph.Set(s, t, w);
      reply := Previous(previous);
    case RemoveOp(v) =>
      var removed := graph.Remove(v);
      reply := Flag(removed);
  }

  /** Performs one call on a vertex-list graph. */
  method ApplyToVertices(graph: VerticesGraph.ConcreteVerticesGraph, op: Op) returns (reply: Reply)
    requires graph.Valid()
    modifies graph.Repr
    ensures graph.Valid() && fresh(graph.Repr - old(graph.Repr))
    ensures Outcome(graph.AF(), reply) == Step(VertexList, old(graph.AF()), op)
  {
    match op
    case AddOp(v) =>
      var added := graph.Add(v);
      reply := Flag(added);
    case SetOp(s, t, w) =>
      var previous := graph.Set(s, t, w);
      reply := Previous(previous);
    case RemoveOp(v) =>
      var removed := graph.Remove(v);
      reply := Flag(removed);
  }

  /** Runs `ops` on a new edge-list graph and collects the replies. */
  method ReplayOnEdges(ops: seq<Op>) returns (replies: seq<Reply>)
    ensures replies == Run(EdgeList, Empty(), ops).replies
  {
    var graph := new EdgesGraph.ConcreteEdgesGraph();
    replies := [];
    for i := 0 to |ops|
      invariant graph.Valid() && fresh(graph)
      invariant Run(EdgeList, Empty(), ops[..i]) == Trace(graph.AF(), replies)
    {
      var reply := ApplyToEdges(graph, ops[i]);
      replies := replies + [reply];
      RunExtend(EdgeList, Empty(), ops, i);
    }
    assert ops[..|ops|] == ops;
  }

  /** Runs `ops` on a new vertex-list graph and collects the replies. */
  method ReplayOnVertices(ops: seq<Op>) returns (replies: seq<Reply>)
    ensures replies == Run(VertexList, Empty(), ops).replies
  {
    var graph := new VerticesGraph.ConcreteVerticesGraph();
    replies := [];
    for i := 0 to |ops|
      invariant graph.Valid() && fresh(graph.Repr)
      invariant Run(VertexList, Empty(), ops[..i]) == Trace(graph.AF(), replies)
    {
      ghost var before, repr := graph.AF(), graph.Repr;
      var reply := ApplyToVertices(graph, ops[i]);
      assert fresh(graph.Repr - repr);
      RunExtend(VertexList, Empty(), ops, i);
      assert Outcome(graph.AF(), reply) == Step(VertexList, before, ops[i]);
      replies := replies + [reply];
    }
    assert ops[..|ops|] == ops;
  }

  /** Runs the same calls on a new graph of each class; when every call is
      one on which the classes agree, the two reply lists are the same. */
  method Replay(ops: seq<Op>) returns (edgeReplies: seq<Reply>, vertexReplies: seq<Reply>)
    ensures edgeReplies == Run(EdgeList, Empty(), ops).replies
    ensures vertexReplies == Run(VertexList, Empty(), ops).replies
    ensures RunAgrees(Empty(), ops) ==> edgeReplies == vertexReplies
  {
    edgeReplies := ReplayOnEdges(ops);
    vertexReplies := ReplayOnVertices(ops);
    if RunAgrees(Empty(), ops) {
      RunsAgree(Empty(), ops);
    }
  }
}
