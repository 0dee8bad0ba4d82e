/** The abstract value that both graph representations stand for: a set of
    vertex labels plus, for every ordered (source, target) pair that has an
    edge, the weight of that edge. A set cannot hold a label twice and a map
    cannot hold a pair twice, so two of the four representation invariants
    (distinct labels, no parallel edges) hold here by construction. */
module GraphSpec {

  type Label = string

  datatype Graph = Graph(vertices: set<Label>, weights: map<(Label, Label), int>)

  /** The other two invariants: no edge leaves or enters a label that is not
      a vertex, and every stored weight is positive. */
  ghost predicate Valid(g: Graph) {
    forall p | p in g.weights :: p.0 in g.vertices && p.1 in g.vertices && g.weights[p] > 0
  }

  /** The graph a constructor produces. */
  function Empty(): (g: Graph)
    ensures Valid(g) && g.vertices == {} && g.weights == map[]
  {
    Graph({}, map[])
  }

  /** The weight of the edge from `s` to `t`, or 0 when there is none. */
  function Weight(g: Graph, s: Label, t: Label): (w: int)
    ensures (s, t) in g.weights ==> w == g.weights[(s, t)]
    ensures (s, t) !in g.weights ==> w == 0
    ensures Valid(g) ==> (w > 0 <==> (s, t) in g.weights)
  {
    if (s, t) in g.weights then g.weights[(s, t)] else 0
  }

  /** Every vertex with an edge into `t`, mapped to that edge's weight. */
  function Sources(g: Graph, t: Label): (m: map<Label, int>)
  {
    map s | s in Firsts(g.weights) && (s, t) in g.weights :: g.weights[(s, t)]
  }

  /** Every vertex that `s` has an edge to, mapped to that edge's weight. */
  function Targets(g: Graph, s: Label): (m: map<Label, int>)
  {
    map t | t in Seconds(g.weights) && (s, t) in g.weights :: g.weights[(s, t)]
  }

  /** The labels that start some edge. */
  function Firsts(weights: map<(Label, Label), int>): set<Label> {
    set p | p in weights :: p.0
  }

  /** The labels that end some edge. */
  function Seconds(weights: map<(Label, Label), int>): set<Label> {
    set p | p in weights :: p.1
  }

  /** Inserts `v` as a vertex; the edges are left as they are. */
  function AddVertex(g: Graph, v: Label): (r: Graph)
    ensures v in r.vertices && r.weights == g.weights
    ensures forall x :: x in r.vertices <==> x in g.vertices || x == v
    ensures Valid(g) ==> Valid(r)
  {
    Graph(g.vertices + {v}, g.weights)
  }

  /** The edge-level half of `set`: a positive weight creates or overwrites
      the edge from `s` to `t`, any other weight deletes it. The vertex set
      is not touched, which is why the callers add the endpoints first. */
  function PutWeight(g: Graph, s: Label, t: Label, w: int): (r: Graph)
    ensures r.vertices == g.vertices
    ensures Weight(r, s, t) == if w > 0 then w else 0
    ensures forall p | p != (s, t) :: (p in r.weights <==> p in g.weights)
    ensures forall p | p != (s, t) && p in r.weights :: r.weights[p] == g.weights[p]
    ensures Valid(g) && (w > 0 ==> s in g.vertices && t in g.vertices) ==> Valid(r)
  {
    Graph(g.vertices, if w > 0 then g.weights[(s, t) := w] else g.weights - {(s, t)})
  }

  /** Deletes `v` together with every edge that has `v` as source or target. */
  function RemoveVertex(g: Graph, v: Label): (r: Graph)
    ensures r.vertices == g.vertices - {v}
    ensures forall p :: p in r.weights <==> p in g.weights && p.0 != v && p.1 != v
    ensures forall p | p in r.weights :: r.weights[p] == g.weights[p]
    ensures Valid(g) ==> Valid(r)
  {
    Graph(g.vertices - {v}, map p | p in g.weights && p.0 != v && p.1 != v :: g.weights[p])
  }

  // ---------------------------------------------------------------------
  // What the two queries report

  /** `sources(t)` is exactly the set of incoming edges of `t`, with weights. */
  lemma SourcesExact(g: Graph, t: Label, s: Label)
    ensures s in Sources(g, t) <==> (s, t) in g.weights
    ensures s in Sources(g, t) ==> Sources(g, t)[s] == g.weights[(s, t)]
  {
    if (s, t) in g.weights {
      assert s == (s, t).0;
    }
  }

  /** `targets(s)` is exactly the set of outgoing edges of `s`, with weights. */
  lemma TargetsExact(g: Graph, s: Label, t: Label)
    ensures t in Targets(g, s) <==> (s, t) in g.weights
    ensures t in Targets(g, s) ==> Targets(g, s)[t] == g.weights[(s, t)]
  {
    if (s, t) in g.weights {
      assert t == (s, t).1;
    }
  }

  /** A label that is not a vertex of a valid graph has neither sources nor
      targets: the caller cannot tell it from an isolated vertex. */
  lemma UnknownLabelHasNoEdges(g: Graph, x: Label)
    requires Valid(g) && x !in g.vertices
    ensures Sources(g, x) == map[] && Targets(g, x) == map[]
  {
    forall s ensures s !in Sources(g, x) && s !in Targets(g, x) {
      SourcesExact(g, x, s);
      TargetsExact(g, x, s);
    }
  }

  /** Writing one weight into the map changes `sources(x)` only when the
      edge points at `x`, and then only in the entry of its source. */
  lemma SourcesAfterWrite(g: Graph, s: Label, t: Label, w: int, x: Label)
    ensures Sources(Graph(g.vertices, g.weights[(s, t) := w]), x)
            == if t == x then Sources(g, x)[s := w] else Sources(g, x)
  {
    var g' := Graph(g.vertices, g.weights[(s, t) := w]);
    var expected := if t == x then Sources(g, x)[s := w] else Sources(g, x);
    forall y ensures y in Sources(g', x) <==> y in expected
                 ensures y in expected ==> Sources(g', x)[y] == expected[y]
    {
      SourcesExact(g', x, y);
      SourcesExact(g, x, y);
    }
  }

  /** Writing one weight into the map changes `targets(x)` only when the
      edge leaves `x`, and then only in the entry of its target. */
  lemma TargetsAfterWrite(g: Graph, s: Label, t: Label, w: int, x: Label)
    ensures Targets(Graph(g.vertices, g.weights[(s, t) := w]), x)
            == if s == x then Targets(g, x)[t := w] else Targets(g, x)
  {
    var g' := Graph(g.vertices, g.weights[(s, t) := w]);
    var expected := if s == x then Targets(g, x)[t := w] else Targets(g, x);
    forall y ensures y in Targets(g', x) <==> y in expected
                 ensures y in expected ==> Targets(g', x)[y] == expected[y]
    {
      TargetsExact(g', x, y);
      TargetsExact(g, x, y);
    }
  }

  // ---------------------------------------------------------------------
  // The edge update

  /** After putting weight `w` on the edge from `s` to `t`, `targets(s)` has
      `t` mapped to `w` when `w` is positive and has no key `t` otherwise;
      its other entries, and `targets` of every other label, are unchanged. */
  lemma TargetsAfterPut(g: Graph, s: Label, t: Label, w: int, x: Label)
    ensures Targets(PutWeight(g, s, t, w), x)
            == if x != s then Targets(g, x)
               else if w > 0 then Targets(g, x)[t := w]
               else Targets(g, x) - {t}
  {
    var r := PutWeight(g, s, t, w);
    var expected := if x != s then Targets(g, x)
                    else if w > 0 then Targets(g, x)[t := w]
                    else Targets(g, x) - {t};
    forall y ensures y in Targets(r, x) <==> y in expected
                 ensures y in expected ==> Targets(r, x)[y] == expected[y]
    {
      TargetsExact(r, x, y);
      TargetsExact(g, x, y);
    }
  }

  /** The mirror image of TargetsAfterPut for `sources(t)`. */
  lemma SourcesAfterPut(g: Graph, s: Label, t: Label, w: int, x: Label)
    ensures Sources(PutWeight(g, s, t, w), x)
            == if x != t then Sources(g, x)
               else if w > 0 then Sources(g, x)[s := w]
               else Sources(g, x) - {s}
  {
    var r := PutWeight(g, s, t, w);
    var expected := if x != t then Sources(g, x)
                    else if w > 0 then Sources(g, x)[s := w]
                    else Sources(g, x) - {s};
    forall y ensures y in Sources(r, x) <==> y in expected
                 ensures y in expected ==> Sources(r, x)[y] == expected[y]
    {
      SourcesExact(r, x, y);
      SourcesExact(g, x, y);
    }
  }

  /** A self-loop shows up both among the targets and among the sources of
      its one vertex. */
  lemma SelfLoopSeenBothWays(g: Graph, a: Label, w: int)
    requires w > 0
    ensures Targets(PutWeight(g, a, a, w), a)[a] == w
    ensures Sources(PutWeight(g, a, a, w), a)[a] == w
  {
    TargetsExact(PutWeight(g, a, a, w), a, a);
    SourcesExact(PutWeight(g, a, a, w), a, a);
  }

  /** Putting a weight twice on the same pair keeps only the last one: the
      second put reports the first weight and leaves no second edge behind. */
  lemma PutTwice(g: Graph, s: Label, t: Label, w1: int, w2: int)
    ensures Weight(PutWeight(g, s, t, w1), s, t) == if w1 > 0 then w1 else 0
    ensures PutWeight(PutWeight(g, s, t, w1), s, t, w2) == PutWeight(g, s, t, w2)
  {
    var r1 := PutWeight(PutWeight(g, s, t, w1), s, t, w2).weights;
    var r2 := PutWeight(g, s, t, w2).weights;
    assert r1.Keys == r2.Keys;
  }

  /** Putting a non-positive weight on an absent edge changes nothing. */
  lemma RemovingAbsentEdgeIsNoOp(g: Graph, s: Label, t: Label, w: int)
    requires w <= 0 && (s, t) !in g.weights
    ensures PutWeight(g, s, t, w) == g
  {
    assert g.weights - {(s, t)} == g.weights;
  }

  // ---------------------------------------------------------------------
  // Vertex insertion and removal

  /** Adding a vertex twice is the same as adding it once. */
  lemma AddVertexIdempotent(g: Graph, v: Label)
    ensures AddVertex(AddVertex(g, v), v) == AddVertex(g, v)
    ensures v in g.vertices ==> AddVertex(g, v) == g
  {
    assert AddVertex(g, v).vertices + {v} == g.vertices + {v};
  }

  /** Removing a label that is not a vertex of a valid graph changes nothing. */
  lemma RemoveAbsentVertexIsNoOp(g: Graph, v: Label)
    requires Valid(g) && v !in g.vertices
    ensures RemoveVertex(g, v) == g
  {
    assert RemoveVertex(g, v).weights.Keys == g.weights.Keys;
  }

  /** Removing a vertex removes exactly the entries naming it from every
      other vertex's `targets` and `sources`, and leaves it none of its own. */
  lemma QueriesAfterRemove(g: Graph, v: Label, x: Label)
    ensures Targets(RemoveVertex(g, v), x) == if x == v then map[] else Targets(g, x) - {v}
    ensures Sources(RemoveVertex(g, v), x) == if x == v then map[] else Sources(g, x) - {v}
  {
    TargetsAfterRemove(g, v, x);
    SourcesAfterRemove(g, v, x);
  }

  lemma TargetsAfterRemove(g: Graph, v: Label, x: Label)
    ensures Targets(RemoveVertex(g, v), x) == if x == v then map[] else Targets(g, x) - {v}
  {
    var r := RemoveVertex(g, v);
    var expected := if x == v then map[] else Targets(g, x) - {v};
    forall y ensures y in Targets(r, x) <==> y in expected
             ensures y in expected ==> Targets(r, x)[y] == expected[y]
    {
      TargetsExact(r, x, y);
      TargetsExact(g, x, y);
    }
  }

  lemma SourcesAfterRemove(g: Graph, v: Label, x: Label)
    ensures Sources(RemoveVertex(g, v), x) == if x == v then map[] else Sources(g, x) - {v}
  {
    var r := RemoveVertex(g, v);
    var expected := if x == v then map[] else Sources(g, x) - {v};
    forall y ensures y in Sources(r, x) <==> y in expected
             ensures y in expected ==> Sources(r, x)[y] == expected[y]
    {
      SourcesExact(r, x, y);
      SourcesExact(g, x, y);
    }
  }
}
