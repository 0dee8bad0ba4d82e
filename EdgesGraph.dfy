/** The edge-list representation: a set of vertex labels plus a list of
    immutable edges, each edge lookup a scan of the list. */
module EdgesGraph {
  import opened GraphSpec

  /** An immutable weighted directed edge. */
  datatype Edge = Edge(source: Label, target: Label, weight: int)
  {
    /** The ordered pair of endpoints that identifies the edge. */
    function Key(): (Label, Label) { (source, target) }

    predicate Touches(v: Label) { source == v || target == v }
  }

  /** The invariant each edge keeps: its weight is positive. */
  predicate EdgeValid(e: Edge) { e.weight > 0 }

  /** A constructor that can refuse its arguments. */
  datatype Result<T> = Ok(value: T) | Err(message: string)

  /** The checked edge constructor: a weight that is not positive is refused,
      anything else is stored as given. */
  function NewEdge(source: Label, target: Label, weight: int): (r: Result<Edge>)
    ensures r.Ok? <==> weight > 0
    ensures r.Ok? ==> EdgeValid(r.value)
    ensures r.Ok? ==> r.value.source == source && r.value.target == target && r.value.weight == weight
  {
    if weight <= 0 then Err("Edge weight must be positive") else Ok(Edge(source, target, weight))
  }

  /** No two edges of the list join the same ordered pair. */
  ghost predicate NoDuplicatePairs(es: seq<Edge>) {
    forall i, j | 0 <= i < j < |es| :: es[i].Key() != es[j].Key()
  }

  /** The pairs the edges of `es` join. */
  ghost function PairsOf(es: seq<Edge>): set<(Label, Label)> {
    set i | 0 <= i < |es| :: es[i].Key()
  }

  /** The weights an edge list stands for, read from left to right so that a
      later edge of the same pair would override an earlier one, as the
      `put` calls of `sources` and `targets` do. */
  function EdgeMap(es: seq<Edge>): map<(Label, Label), int> {
    if es == [] then map[] else EdgeMap(es[..|es| - 1])[es[|es| - 1].Key() := es[|es| - 1].weight]
  }

  /** The edges of `es` that do not touch `v`, in their original order. */
  function Without(es: seq<Edge>, v: Label): seq<Edge> {
    if es == [] then []
    else Without(es[..|es| - 1], v) + (if es[|es| - 1].Touches(v) then [] else [es[|es| - 1]])
  }

  // ---------------------------------------------------------------------
  // Facts about the edge list

  lemma {:induction false} EdgeMapKeys(es: seq<Edge>)
    ensures EdgeMap(es).Keys == PairsOf(es)
  {
    if es != [] {
      var init := es[..|es| - 1];
      EdgeMapKeys(init);
      assert PairsOf(es) == PairsOf(init) + {es[|es| - 1].Key()} by {
        forall p | p in PairsOf(es) ensures p in PairsOf(init) + {es[|es| - 1].Key()} {
          var i :| 0 <= i < |es| && es[i].Key() == p;
          if i < |es| - 1 { assert init[i] == es[i]; }
        }
        forall p | p in PairsOf(init) ensures p in PairsOf(es) {
          var i :| 0 <= i < |init| && init[i].Key() == p;
          assert es[i] == init[i];
        }
      }
    }
  }

  /** Appending an edge writes its weight under its pair. */
  lemma EdgeMapAppend(es: seq<Edge>, e: Edge)
    ensures EdgeMap(es + [e]) == EdgeMap(es)[e.Key() := e.weight]
  {
    assert (es + [e])[..|es|] == es;
  }

  /** In a list without parallel edges, each edge's weight is the one the
      list stands for. */
  lemma {:induction false} EdgeMapAt(es: seq<Edge>, i: int)
    requires NoDuplicatePairs(es) && 0 <= i < |es|
    ensures es[i].Key() in EdgeMap(es) && EdgeMap(es)[es[i].Key()] == es[i].weight
  {
    var n := |es| - 1;
    if i < n {
      var init := es[..n];
      assert init[i] == es[i];
      EdgeMapAt(init, i);
    }
  }

  /** Deleting the edge at index `i` from a list without parallel edges
      deletes exactly its pair from the weights. */
  lemma {:induction false} EdgeMapRemoveAt(es: seq<Edge>, i: int)
    requires NoDuplicatePairs(es) && 0 <= i < |es|
    ensures EdgeMap(es[..i] + es[i + 1..]) == EdgeMap(es) - {es[i].Key()}
  {
    var n := |es| - 1;
    var init := es[..n];
    var rest := es[..i] + es[i + 1..];
    if i == n {
      assert rest == init;
      EdgeMapKeys(init);
      assert es[i].Key() !in PairsOf(init);
      PutThenDelete(EdgeMap(init), es[n].Key(), es[n].weight);
    } else {
      assert init[i] == es[i];
      PrefixNoDuplicates(es, n);
      EdgeMapRemoveAt(init, i);
      assert rest == (init[..i] + init[i + 1..]) + [es[n]];
      EdgeMapAppend(init[..i] + init[i + 1..], es[n]);
      DeleteThenPut(EdgeMap(init), es[i].Key(), es[n].Key(), es[n].weight);
    }
  }

  lemma PrefixNoDuplicates(es: seq<Edge>, n: int)
    requires NoDuplicatePairs(es) && 0 <= n <= |es|
    ensures NoDuplicatePairs(es[..n])
  {
    var init := es[..n];
    forall a, b | 0 <= a < b < |init| ensures init[a].Key() != init[b].Key() {
      assert init[a] == es[a] && init[b] == es[b];
    }
  }

  /** Deleting one edge keeps the list free of parallel edges. */
  lemma RemoveAtNoDuplicates(es: seq<Edge>, i: int)
    requires NoDuplicatePairs(es) && 0 <= i < |es|
    ensures NoDuplicatePairs(es[..i] + es[i + 1..])
  {
    var rest := es[..i] + es[i + 1..];
    forall a, b | 0 <= a < b < |rest| ensures rest[a].Key() != rest[b].Key() {
      var a', b' := if a < i then a else a + 1, if b < i then b else b + 1;
      assert rest[a] == es[a'] && rest[b] == es[b'];
    }
  }

  lemma PutThenDelete(m: map<(Label, Label), int>, k: (Label, Label), w: int)
    requires k !in m
    ensures m[k := w] - {k} == m
  {
    assert (m[k := w] - {k}).Keys == m.Keys;
  }

  lemma DeleteThenPut(m: map<(Label, Label), int>, a: (Label, Label), b: (Label, Label), w: int)
    requires a != b
    ensures (m - {a})[b := w] == m[b := w] - {a}
  {
    assert (m - {a})[b := w].Keys == (m[b := w] - {a}).Keys;
  }

  lemma {:induction false} WithoutKeeps(es: seq<Edge>, v: Label)
    ensures forall k | 0 <= k < |Without(es, v)| ::
              Without(es, v)[k] in es && !Without(es, v)[k].Touches(v)
  {
    if es != [] {
      var init := es[..|es| - 1];
      WithoutKeeps(init, v);
      forall k | 0 <= k < |Without(init, v)| ensures Without(init, v)[k] in es {
        assert Without(init, v)[k] in init;
      }
    }
  }

  /** Keeping the edges that avoid `v` keeps the list free of parallel edges. */
  lemma {:induction false} WithoutNoDuplicates(es: seq<Edge>, v: Label)
    requires NoDuplicatePairs(es)
    ensures NoDuplicatePairs(Without(es, v))
  {
    if es != [] {
      var n := |es| - 1;
      var init := es[..n];
      PrefixNoDuplicates(es, n);
      WithoutNoDuplicates(init, v);
      if !es[n].Touches(v) {
        var w := Without(init, v);
        WithoutKeeps(init, v);
        forall i | 0 <= i < |w| ensures w[i].Key() != es[n].Key() {
          var k :| 0 <= k < |init| && init[k] == w[i];
          assert es[k] == init[k];
        }
      }
    }
  }

  /** Keeping the edges that avoid `v` drops exactly the pairs naming `v`. */
  lemma {:induction false} EdgeMapWithout(es: seq<Edge>, v: Label)
    ensures EdgeMap(Without(es, v)) == RemoveVertex(Graph({}, EdgeMap(es)), v).weights
  {
    if es != [] {
      var n := |es| - 1;
      var init := es[..n];
      EdgeMapWithout(init, v);
      if !es[n].Touches(v) {
        EdgeMapAppend(Without(init, v), es[n]);
      } else {
        assert Without(es, v) == Without(init, v);
      }
    }
  }

  /** The representation invariant of the edge-list graph, over its two
      fields: no dangling edge, no two edges for one pair, every weight
      positive. */
  ghost predicate ValidRep(vertices: set<Label>, edges: seq<Edge>) {
    && (forall i | 0 <= i < |edges| ::
          edges[i].source in vertices && edges[i].target in vertices && EdgeValid(edges[i]))
    && NoDuplicatePairs(edges)
  }

  /** The string under which `checkRep` files an edge when it looks for
      duplicates: the source, an arrow, the target. */
  function ArrowKey(e: Edge): string {
    e.source + "->" + e.target
  }

  /** The invariant `checkRep` actually asserts: every edge's endpoints are
      vertices, and no two edges have the same arrow string. Two different
      pairs can share an arrow string when a label contains "->". */
  ghost predicate CheckRepAsWritten(vertices: set<Label>, edges: seq<Edge>) {
    && (forall i | 0 <= i < |edges| :: edges[i].source in vertices && edges[i].target in vertices)
    && (forall i, j | 0 <= i < j < |edges| :: ArrowKey(edges[i]) != ArrowKey(edges[j]))
  }

  /** Distinct arrow strings imply distinct pairs, but not the other way
      round: the pairs ("a->b", "c") and ("a", "b->c") differ and share the
      arrow string "a->b->c". */
  lemma ArrowKeyNotInjective()
    ensures Edge("a->b", "c", 1).Key() != Edge("a", "b->c", 1).Key()
    ensures ArrowKey(Edge("a->b", "c", 1)) == ArrowKey(Edge("a", "b->c", 1)) == "a->b->c"
    ensures forall vs: set<Label>, es: seq<Edge> | CheckRepAsWritten(vs, es) :: NoDuplicatePairs(es)
  {
    assert "a->b" != "a" by { assert |"a->b"| != |"a"|; }
    forall vs: set<Label>, es: seq<Edge> | CheckRepAsWritten(vs, es) ensures NoDuplicatePairs(es) {
      forall i, j | 0 <= i < j < |es| ensures es[i].Key() != es[j].Key() {
        assert ArrowKey(es[i]) != ArrowKey(es[j]);
      }
    }
  }

  /** Writing a key that was just deleted is the same as overwriting it. */
  lemma PutAfterDelete(m: map<(Label, Label), int>, k: (Label, Label), w: int)
    ensures (m - {k})[k := w] == m[k := w]
  {
    assert (m - {k})[k := w].Keys == m[k := w].Keys;
  }

  /** Deleting one edge keeps the invariant and deletes its pair. */
  lemma DropKeepsRep(vertices: set<Label>, es: seq<Edge>, i: int)
    requires ValidRep(vertices, es) && 0 <= i < |es|
    ensures ValidRep(vertices, es[..i] + es[i + 1..])
    ensures EdgeMap(es[..i] + es[i + 1..]) == EdgeMap(es) - {es[i].Key()}
  {
    EdgeMapRemoveAt(es, i);
    RemoveAtNoDuplicates(es, i);
    var rest := es[..i] + es[i + 1..];
    forall k | 0 <= k < |rest| ensures rest[k] in es {
      if k < i { assert rest[k] == es[k]; } else { assert rest[k] == es[k + 1]; }
    }
  }

  /** Appending a valid edge for a fresh pair between vertices keeps the
      invariant. */
  lemma AppendKeepsRep(vertices: set<Label>, es: seq<Edge>, e: Edge)
    requires ValidRep(vertices, es)
    requires e.source in vertices && e.target in vertices && EdgeValid(e)
    requires e.Key() !in EdgeMap(es)
    ensures ValidRep(vertices, es + [e])
    ensures EdgeMap(es + [e]) == EdgeMap(es)[e.Key() := e.weight]
  {
    EdgeMapKeys(es);
    EdgeMapAppend(es, e);
    var es' := es + [e];
    forall i, j | 0 <= i < j < |es'| ensures es'[i].Key() != es'[j].Key() {
      if j < |es| {
        assert es'[i] == es[i] && es'[j] == es[j];
      } else {
        assert es'[i] == es[i] && es'[j] == e;
      }
    }
  }

  /** Keeping the edges that avoid `v` keeps the invariant once `v` is gone. */
  lemma WithoutKeepsRep(vertices: set<Label>, es: seq<Edge>, v: Label)
    requires ValidRep(vertices, es)
    ensures ValidRep(vertices - {v}, Without(es, v))
    ensures EdgeMap(Without(es, v)) == RemoveVertex(Graph({}, EdgeMap(es)), v).weights
  {
    WithoutKeeps(es, v);
    WithoutNoDuplicates(es, v);
    EdgeMapWithout(es, v);
    var w := Without(es, v);
    forall k | 0 <= k < |w|
      ensures w[k].source in vertices - {v} && w[k].target in vertices - {v} && EdgeValid(w[k])
    {
      var i :| 0 <= i < |es| && es[i] == w[k];
    }
  }

  // ---------------------------------------------------------------------
  // The graph

  class ConcreteEdgesGraph {
    var vertices: set<Label>
    var edges: seq<Edge>

    /** The representation invariant: no dangling edge, no two edges for
        one pair, every weight positive. */
    ghost predicate Valid()
      reads this
    {
      ValidRep(vertices, edges)
    }

    /** The abstraction function: the graph the two fields stand for. */
    ghost function AF(): Graph
      reads this
    {
      Graph(vertices, EdgeMap(edges))
    }

    /** The representation invariant gives a valid abstract graph. */
    lemma AFValid()
      requires Valid()
      ensures GraphSpec.Valid(AF())
    {
      EdgeMapKeys(edges);
      forall p | p in EdgeMap(edges)
        ensures p.0 in vertices && p.1 in vertices && EdgeMap(edges)[p] > 0
      {
        var i :| 0 <= i < |edges| && edges[i].Key() == p;
        EdgeMapAt(edges, i);
      }
    }

    /** Creates an empty graph. */
    constructor ()
      ensures Valid() && AF() == Empty()
    {
      vertices := {};
      edges := [];
    }

    method Add(vertex: Label) returns (added: bool)
      requires Valid()
      modifies this
      ensures Valid()
      ensures added <==> vertex !in old(vertices)
      ensures vertices == old(vertices) + {vertex} && edges == old(edges)
      ensures AF() == AddVertex(old(AF()), vertex)
    {
      if vertex in vertices {
        return false;
      }
      vertices := vertices + {vertex};
      added := true;
    }

    method Set(source: Label, target: Label, weight: int) returns (previous: int)
      requires Valid()
      modifies this
      ensures Valid()
      ensures previous == Weight(old(AF()), source, target)
      ensures vertices == old(vertices) + {source, target}
      ensures AF() == PutWeight(AddVertex(AddVertex(old(AF()), source), target), source, target, weight)
    {
      var _ := Add(source);
      var _ := Add(target);
      ghost var g1 := AF();
      ghost var before := edges;
      previous := 0;
      var i := 0;
      while i < |edges|
        invariant 0 <= i <= |edges| && edges == before && previous == 0
        invariant vertices == g1.vertices
        invariant forall k | 0 <= k < i :: edges[k].Key() != (source, target)
      {
        if edges[i].source == source && edges[i].target == target {
          previous := edges[i].weight;
          EdgeMapAt(edges, i);
          DropKeepsRep(vertices, edges, i);
          edges := edges[..i] + edges[i + 1..];
          break;
        }
        i := i + 1;
      }
      EdgeMapKeys(before);
      assert previous == Weight(g1, source, target);
      assert EdgeMap(edges) == g1.weights - {(source, target)};
      if weight > 0 {
        var e := NewEdge(source, target, weight);
        AppendKeepsRep(vertices, edges, e.value);
        edges := edges + [e.value];
        PutAfterDelete(g1.weights, (source, target), weight);
      }
    }

    method Remove(vertex: Label) returns (removed: bool)
      requires Valid()
      modifies this
      ensures Valid()
      ensures removed <==> vertex in old(vertices)
      ensures vertices == old(vertices) - {vertex}
      ensures edges == Without(old(edges), vertex)
      ensures AF() == RemoveVertex(old(AF()), vertex)
    {
      if vertex !in vertices {
        WithoutUntouched(edges, vertex);
        AFValid();
        RemoveAbsentVertexIsNoOp(AF(), vertex);
        return false;
      }
      ghost var before := edges;
      ghost var j := 0;
      var i := 0;
      while i < |edges|
        invariant 0 <= i <= |edges| && 0 <= j <= |before|
        invariant edges[..i] == Without(before[..j], vertex)
        invariant edges[i..] == before[j..]
        invariant vertices == old(vertices)
        decreases |before| - j
      {
        assert before[..j + 1][..j] == before[..j];
        assert before[j] == edges[i];
        if edges[i].source == vertex || edges[i].target == vertex {
          assert (edges[..i] + edges[i + 1..])[..i] == edges[..i];
          assert (edges[..i] + edges[i + 1..])[i..] == edges[i + 1..];
          edges := edges[..i] + edges[i + 1..];
        } else {
          assert edges[..i + 1] == edges[..i] + [edges[i]];
          i := i + 1;
        }
        j := j + 1;
      }
      assert before[..j] == before;
      assert edges == edges[..i];
      WithoutKeepsRep(vertices, before, vertex);
      vertices := vertices - {vertex};
      removed := true;
    }

    method Vertices() returns (labels: set<Label>)
      ensures labels == AF().vertices
    {
      labels := vertices;
    }

    method Sources(target: Label) returns (sourcesMap: map<Label, int>)
      ensures sourcesMap == GraphSpec.Sources(AF(), target)
    {
      sourcesMap := map[];
      for i := 0 to |edges|
        invariant sourcesMap == GraphSpec.Sources(Graph(vertices, EdgeMap(edges[..i])), target)
      {
        var e := edges[i];
        EdgeMapAppend(edges[..i], e);
        assert edges[..i + 1] == edges[..i] + [e];
        SourcesAfterWrite(Graph(vertices, EdgeMap(edges[..i])), e.source, e.target, e.weight, target);
        if e.target == target {
          sourcesMap := sourcesMap[e.source := e.weight];
        }
      }
      assert edges[..|edges|] == edges;
    }

    method Targets(source: Label) returns (targetsMap: map<Label, int>)
      ensures targetsMap == GraphSpec.Targets(AF(), source)
    {
      targetsMap := map[];
      for i := 0 to |edges|
        invariant targetsMap == GraphSpec.Targets(Graph(vertices, EdgeMap(edges[..i])), source)
      {
        var e := edges[i];
        EdgeMapAppend(edges[..i], e);
        assert edges[..i + 1] == edges[..i] + [e];
        TargetsAfterWrite(Graph(vertices, EdgeMap(edges[..i])), e.source, e.target, e.weight, source);
        if e.source == source {
          targetsMap := targetsMap[e.target := e.weight];
        }
      }
      assert edges[..|edges|] == edges;
    }
  }

  /** `set("a->b", "c", 1)` then `set("a", "b->c", 1)` on a new graph reach a
      state that keeps the documented invariant, yet the arrow-string check
      of `checkRep` rejects it. */
  method ArrowKeyCollision() returns (graph: ConcreteEdgesGraph)
    ensures graph.Valid()
    ensures graph.AF().weights == map[("a->b", "c") := 1, ("a", "b->c") := 1]
    ensures !CheckRepAsWritten(graph.vertices, graph.edges)
  {
    graph := new ConcreteEdgesGraph();
    var _ := graph.Set("a->b", "c", 1);
    var _ := graph.Set("a", "b->c", 1);
    ArrowKeyNotInjective();
    var es := graph.edges;
    EdgeMapKeys(es);
    assert ("a->b", "c") in PairsOf(es) && ("a", "b->c") in PairsOf(es);
    var i :| 0 <= i < |es| && es[i].Key() == ("a->b", "c");
    var j :| 0 <= j < |es| && es[j].Key() == ("a", "b->c");
    assert ArrowKey(es[i]) == ArrowKey(Edge("a->b", "c", 1));
    assert ArrowKey(es[j]) == ArrowKey(Edge("a", "b->c", 1));
    assert i != j;
    if i < j {
      assert ArrowKey(es[i]) == ArrowKey(es[j]);
    } else {
      assert ArrowKey(es[j]) == ArrowKey(es[i]);
    }
  }

  /** A list none of whose edges touches `v` keeps every edge. */
  lemma {:induction false} WithoutUntouched(es: seq<Edge>, v: Label)
    requires forall k | 0 <= k < |es| :: !es[k].Touches(v)
    ensures Without(es, v) == es
  {
    if es != [] {
      WithoutUntouched(es[..|es| - 1], v);
      assert es[..|es| - 1] + [es[|es| - 1]] == es;
    }
  }
}
