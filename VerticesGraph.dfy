/** The vertex-list representation: a list of mutable vertex records, each
    owning the map from its targets to the weights of its outgoing edges. */
module VerticesGraph {
  import opened GraphSpec

  /** The edge map that a table of outgoing maps stands for: an edge from `s`
      to `t` for every key `t` of the row of `s`. */
  ghost function Flatten(adj: map<Label, map<Label, int>>): map<(Label, Label), int>
  {
    map p | p in PairsIn(adj) && p.0 in adj && p.1 in adj[p.0] :: adj[p.0][p.1]
  }

  /** Every key of every row names a row: no edge leaves the table. */
  ghost predicate RowsClosed(adj: map<Label, map<Label, int>>) {
    forall s | s in adj :: adj[s].Keys <= adj.Keys
  }

  /** Every (row, key) pair of a table. */
  ghost function PairsIn(adj: map<Label, map<Label, int>>): set<(Label, Label)> {
    set s, t | s in adj && t in adj[s] :: (s, t)
  }

  lemma FlattenExact(adj: map<Label, map<Label, int>>, s: Label, t: Label)
    ensures (s, t) in Flatten(adj) <==> s in adj && t in adj[s]
    ensures (s, t) in Flatten(adj) ==> Flatten(adj)[(s, t)] == adj[s][t]
  {
    if s in adj && t in adj[s] {
      assert (s, t) in PairsIn(adj);
    }
  }

  /** A new row with no entries adds no edge. */
  lemma FlattenNewRow(adj: map<Label, map<Label, int>>, s: Label)
    requires s !in adj
    ensures Flatten(adj[s := map[]]) == Flatten(adj)
    ensures adj[s := map[]].Keys == adj.Keys + {s}
    ensures RowsClosed(adj) ==> RowsClosed(adj[s := map[]])
  {
    var f, f' := Flatten(adj), Flatten(adj[s := map[]]);
    forall p ensures p in f' <==> p in f {
      FlattenExact(adj, p.0, p.1);
      FlattenExact(adj[s := map[]], p.0, p.1);
    }
    forall p | p in f ensures f'[p] == f[p] {
      FlattenExact(adj, p.0, p.1);
      FlattenExact(adj[s := map[]], p.0, p.1);
    }
  }

  /** The table after the row of `s` puts weight `w` on its entry `t`: a
      positive weight is stored, any other weight removes the entry. */
  ghost function PutInRow(adj: map<Label, map<Label, int>>, s: Label, t: Label, w: int): map<Label, map<Label, int>>
    requires s in adj
  {
    adj[s := if w > 0 then adj[s][t := w] else adj[s] - {t}]
  }

  /** The row update a vertex performs is the edge update of the graph. */
  lemma FlattenPut(adj: map<Label, map<Label, int>>, s: Label, t: Label, w: int)
    requires s in adj
    ensures Flatten(PutInRow(adj, s, t, w)) == PutWeight(Graph({}, Flatten(adj)), s, t, w).weights
  {
    var adj' := PutInRow(adj, s, t, w);
    var f, f' := PutWeight(Graph({}, Flatten(adj)), s, t, w).weights, Flatten(adj');
    forall p ensures p in f' <==> p in f {
      FlattenExact(adj, p.0, p.1);
      FlattenExact(adj', p.0, p.1);
    }
    forall p | p in f ensures f'[p] == f[p] {
      FlattenExact(adj, p.0, p.1);
      FlattenExact(adj', p.0, p.1);
    }
  }

  /** Seen as graphs, the row update is `PutWeight` on the graph the table
      stands for; it keeps every row's keys among the row labels when the
      new entry names a row, and the old weight is the one in the row. */
  lemma RowPut(adj: map<Label, map<Label, int>>, s: Label, t: Label, w: int)
    requires s in adj
    ensures Graph(PutInRow(adj, s, t, w).Keys, Flatten(PutInRow(adj, s, t, w)))
            == PutWeight(Graph(adj.Keys, Flatten(adj)), s, t, w)
    ensures Weight(Graph(adj.Keys, Flatten(adj)), s, t) == if t in adj[s] then adj[s][t] else 0
    ensures RowsClosed(adj) && (w > 0 ==> t in adj) ==> RowsClosed(PutInRow(adj, s, t, w))
  {
    FlattenPut(adj, s, t, w);
    FlattenExact(adj, s, t);
  }

  /** The table left after dropping the row of `v` and the key `v` from
      every other row. */
  ghost function Cascade(adj: map<Label, map<Label, int>>, v: Label): map<Label, map<Label, int>>
  {
    Strip(adj - {v}, v)
  }

  /** The table with the key `v` dropped from every row. */
  ghost function Strip(adj: map<Label, map<Label, int>>, v: Label): map<Label, map<Label, int>>
  {
    map s | s in adj :: adj[s] - {v}
  }

  lemma StripKeys(adj: map<Label, map<Label, int>>, v: Label)
    ensures Strip(adj, v).Keys == adj.Keys
    ensures forall s | s in adj :: Strip(adj, v)[s] == adj[s] - {v}
  {
  }

  /** Dropping the row of `v` and every entry for `v` removes exactly the
      edges incident to `v`. */
  lemma FlattenCascade(adj: map<Label, map<Label, int>>, v: Label)
    ensures Flatten(Cascade(adj, v)) == RemoveVertex(Graph({}, Flatten(adj)), v).weights
  {
    var adj' := Cascade(adj, v);
    var f, f' := RemoveVertex(Graph({}, Flatten(adj)), v).weights, Flatten(adj');
    forall p ensures p in f' <==> p in f {
      FlattenExact(adj, p.0, p.1);
      FlattenExact(adj', p.0, p.1);
    }
    forall p | p in f ensures f'[p] == f[p] {
      FlattenExact(adj, p.0, p.1);
      FlattenExact(adj', p.0, p.1);
    }
  }

  /** Seen as graphs, dropping a row and its key everywhere is
      `RemoveVertex`, and it keeps every row's keys among the row labels. */
  lemma RowRemove(adj: map<Label, map<Label, int>>, v: Label)
    ensures Graph(Cascade(adj, v).Keys, Flatten(Cascade(adj, v)))
            == RemoveVertex(Graph(adj.Keys, Flatten(adj)), v)
    ensures RowsClosed(adj) ==> RowsClosed(Cascade(adj, v))
  {
    FlattenCascade(adj, v);
    assert Cascade(adj, v).Keys == adj.Keys - {v};
  }

  /** `targets(s)` of the graph a table stands for is the row of `s`. */
  lemma TargetsOfFlatten(vs: set<Label>, adj: map<Label, map<Label, int>>, s: Label)
    ensures GraphSpec.Targets(Graph(vs, Flatten(adj)), s) == if s in adj then adj[s] else map[]
  {
    var g := Graph(vs, Flatten(adj));
    var expected := if s in adj then adj[s] else map[];
    forall t ensures t in GraphSpec.Targets(g, s) <==> t in expected
             ensures t in expected ==> GraphSpec.Targets(g, s)[t] == expected[t]
    {
      TargetsExact(g, s, t);
      FlattenExact(adj, s, t);
    }
  }

  /** The entries for `t` in the rows of the labels `ls`, by row label. */
  ghost function SourcesIn(adj: map<Label, map<Label, int>>, t: Label, ls: set<Label>): map<Label, int>
  {
    map l | l in ls && l in adj && t in adj[l] :: adj[l][t]
  }

  /** Looking at one more row adds its entry for `t`, if it has one. */
  lemma SourcesInAdd(adj: map<Label, map<Label, int>>, t: Label, ls: set<Label>, l: Label)
    requires l in adj
    ensures SourcesIn(adj, t, ls + {l})
            == if t in adj[l] then SourcesIn(adj, t, ls)[l := adj[l][t]] else SourcesIn(adj, t, ls)
  {
    var expected := if t in adj[l] then SourcesIn(adj, t, ls)[l := adj[l][t]] else SourcesIn(adj, t, ls);
    assert SourcesIn(adj, t, ls + {l}).Keys == expected.Keys;
  }

  /** `sources(t)` of the graph a table stands for gathers the entries for
      `t` of every row. */
  lemma SourcesOfFlatten(adj: map<Label, map<Label, int>>, t: Label)
    ensures GraphSpec.Sources(Graph(adj.Keys, Flatten(adj)), t) == SourcesIn(adj, t, adj.Keys)
  {
    var g := Graph(adj.Keys, Flatten(adj));
    var expected := SourcesIn(adj, t, adj.Keys);
    forall s ensures s in GraphSpec.Sources(g, t) <==> s in expected
             ensures s in expected ==> GraphSpec.Sources(g, t)[s] == expected[s]
    {
      SourcesExact(g, t, s);
      FlattenExact(adj, s, t);
    }
  }

  /** A footprint that grows twice has grown by both parts. */
  lemma Grown(r0: set<object>, r1: set<object>, r2: set<object>, a: set<object>, b: set<object>)
    requires r1 == r0 + a && r2 == r1 + b
    ensures r2 == r0 + (a + b)
  {
  }

  /** The labels of a list of vertex records. */
  ghost function LabelsOf(vs: seq<Vertex>): set<Label> {
    set i | 0 <= i < |vs| :: vs[i].name
  }

  lemma LabelsOfSnoc(vs: seq<Vertex>, v: Vertex)
    ensures LabelsOf(vs + [v]) == LabelsOf(vs) + {v.name}
  {
    var vs' := vs + [v];
    assert vs'[|vs|] == v;
    forall l | l in LabelsOf(vs) ensures l in LabelsOf(vs') {
      var i :| 0 <= i < |vs| && vs[i].name == l;
      assert vs'[i] == vs[i];
    }
  }

  /** Slicing the record at `k` out of a list with distinct labels leaves a
      list with distinct labels that has lost exactly the label of `k`. */
  lemma DropRecord(vs: seq<Vertex>, k: int)
    requires 0 <= k < |vs|
    requires forall i, j | 0 <= i < j < |vs| :: vs[i].name != vs[j].name
    ensures var rest := vs[..k] + vs[k + 1..];
      && (forall i, j | 0 <= i < j < |rest| :: rest[i].name != rest[j].name)
      && LabelsOf(rest) == LabelsOf(vs) - {vs[k].name}
  {
    var rest := vs[..k] + vs[k + 1..];
    assert forall i | 0 <= i < |rest| :: rest[i] == if i < k then vs[i] else vs[i + 1];
    forall l | l in LabelsOf(vs) - {vs[k].name} ensures l in LabelsOf(rest) {
      var i :| 0 <= i < |vs| && vs[i].name == l;
      assert rest[if i < k then i else i - 1] == vs[i];
    }
  }

  /** Appending a record with a new label to a list with distinct labels
      keeps them distinct and adds exactly that label. */
  lemma AppendRecord(vs: seq<Vertex>, v: Vertex)
    requires forall i, j | 0 <= i < j < |vs| :: vs[i].name != vs[j].name
    requires v.name !in LabelsOf(vs)
    ensures var vs' := vs + [v];
      && (forall i, j | 0 <= i < j < |vs'| :: vs'[i].name != vs'[j].name)
      && LabelsOf(vs') == LabelsOf(vs) + {v.name}
  {
    var vs' := vs + [v];
    assert forall i | 0 <= i < |vs| :: vs'[i] == vs[i];
    assert vs'[|vs|] == v;
    forall i, j | 0 <= i < j < |vs'| ensures vs'[i].name != vs'[j].name {
      if j == |vs| { assert vs[i].name in LabelsOf(vs); }
    }
    forall l | l in LabelsOf(vs) ensures l in LabelsOf(vs') {
      var i :| 0 <= i < |vs| && vs[i].name == l;
      assert vs'[i].name == l;
    }
  }

  /** A mutable vertex: a fixed label and the weights of its outgoing edges. */
  class Vertex {
    const name: Label
    var outgoing: map<Label, int>

    /** The representation invariant: every stored weight is positive. */
    ghost predicate Valid()
      reads this
    {
      forall t | t in outgoing :: outgoing[t] > 0
    }

    /** Creates a vertex with no outgoing edges. */
    constructor (name: Label)
      ensures this.name == name && outgoing == map[] && Valid()
    {
      this.name := name;
      outgoing := map[];
    }

    /** Adds, updates or removes the edge to `target`: a positive weight is
        stored, any other weight removes the key. Returns the weight the edge
        had, or 0 when there was none. */
    method SetEdgeTo(target: Label, weight: int) returns (previous: int)
      modifies this
      ensures previous == if target in old(outgoing) then old(outgoing)[target] else 0
      ensures outgoing == if weight > 0 then old(outgoing)[target := weight] else old(outgoing) - {target}
      ensures old(Valid()) ==> Valid() && (previous == 0 <==> target !in old(outgoing))
    {
      previous := 0;
      if target in outgoing {
        previous := outgoing[target];
      }
      if weight > 0 {
        outgoing := outgoing[target := weight];
      } else {
        outgoing := outgoing - {target};
      }
    }

    /** Removes the edge to `target` if there is one. */
    method RemoveEdgeTo(target: Label)
      modifies this
      ensures outgoing == old(outgoing) - {target}
      ensures old(Valid()) ==> Valid()
    {
      outgoing := outgoing - {target};
    }

    /** The weight of the edge to `target`, or 0 when there is none. */
    function WeightTo(target: Label): (w: int)
      reads this
      ensures target in outgoing ==> w == outgoing[target]
      ensures target !in outgoing ==> w == 0
      ensures Valid() ==> (w == 0 <==> target !in outgoing)
    {
      if target in outgoing then outgoing[target] else 0
    }

    /** A copy of the outgoing edges. */
    method OutgoingEdges() returns (edges: map<Label, int>)
      ensures edges == outgoing
      ensures Valid() ==> forall t | t in edges :: edges[t] > 0
    {
      edges := outgoing;
    }
  }

  class ConcreteVerticesGraph {
    var vertices: seq<Vertex>
    /** The outgoing map of every vertex, by label. */
    ghost var Adj: map<Label, map<Label, int>>
    /** The objects of the representation: the graph and every record it
        has held. */
    ghost var Repr: set<object>

    /** The representation invariant: labels are distinct, every vertex keeps
        its own invariant, `Adj` holds exactly the vertices' outgoing maps
        (`Consistent`), and every key of an outgoing map names a vertex of
        the list. */
    ghost predicate Valid()
      reads this, Repr
    {
      && this in Repr
      && (forall v | v in vertices :: v in Repr)
      && Consistent()
      && RowsClosed(Adj)
    }

    ghost predicate Consistent()
      reads this, vertices
    {
      && (forall i, j | 0 <= i < j < |vertices| :: vertices[i].name != vertices[j].name)
      && (forall i | 0 <= i < |vertices| :: vertices[i].Valid())
      && Adj.Keys == LabelsOf(vertices)
      && (forall i | 0 <= i < |vertices| ::
            vertices[i].name in Adj && Adj[vertices[i].name] == vertices[i].outgoing)
    }

    /** The abstraction function: the graph the vertex list stands for. */
    ghost function AF(): Graph
      reads this
    {
      Graph(Adj.Keys, Flatten(Adj))
    }

    /** The representation invariant gives a valid abstract graph. */
    lemma AFValid()
      requires Valid()
      ensures GraphSpec.Valid(AF())
    {
      forall p | p in Flatten(Adj)
        ensures p.0 in Adj.Keys && p.1 in Adj.Keys && Flatten(Adj)[p] > 0
      {
        FlattenExact(Adj, p.0, p.1);
        var i :| 0 <= i < |vertices| && vertices[i].name == p.0;
        assert vertices[i].Valid();
      }
    }

    /** Creates an empty graph. */
    constructor ()
      ensures Valid() && AF() == Empty() && vertices == [] && fresh(Repr)
    {
      vertices := [];
      Adj := map[];
      new;
      Repr := {this};
      forall p ensures p !in Flatten(Adj) {
        FlattenExact(Adj, p.0, p.1);
      }
    }

    /** Finds the vertex labelled `name`, or null when there is none. */
    method FindVertex(name: Label) returns (v: Vertex?)
      ensures v != null ==> v in vertices && v.name == name
      ensures v == null <==> name !in LabelsOf(vertices)
    {
      for i := 0 to |vertices|
        invariant forall k | 0 <= k < i :: vertices[k].name != name
      {
        if vertices[i].name == name {
          return vertices[i];
        }
      }
      return null;
    }

    /** Appends a fresh vertex with no outgoing edges. */
    method AppendVertex(name: Label) returns (v: Vertex)
      requires Valid() && name !in LabelsOf(vertices)
      modifies this
      ensures Valid() && fresh(v) && v.name == name && v.outgoing == map[]
      ensures vertices == old(vertices) + [v] && Repr == old(Repr) + {v}
      ensures AF() == AddVertex(old(AF()), name)
    {
      v := new Vertex(name);
      Repr := Repr + {v};
      FlattenNewRow(Adj, name);
      AppendRecord(vertices, v);
      vertices := vertices + [v];
      Adj := Adj[name := map[]];
      forall i | 0 <= i < |vertices|
        ensures vertices[i].Valid() && vertices[i].name in Adj && Adj[vertices[i].name] == vertices[i].outgoing
      {
        if i < |vertices| - 1 {
          assert vertices[i] == old(vertices)[i];
          assert vertices[i].name != name && Adj[vertices[i].name] == old(Adj)[vertices[i].name];
        }
      }
    }

    method Add(vertex: Label) returns (added: bool)
      requires Valid()
      modifies this
      ensures Valid()
      ensures added <==> vertex !in old(AF()).vertices
      ensures AF() == AddVertex(old(AF()), vertex)
      ensures !added ==> vertices == old(vertices)
      ensures added ==> |vertices| == |old(vertices)| + 1 && vertices[..|old(vertices)|] == old(vertices)
      ensures added ==> fresh(vertices[|old(vertices)|]) && vertices[|old(vertices)|].outgoing == map[]
      ensures fresh(Repr - old(Repr))
    {
      var found := FindVertex(vertex);
      if found != null {
        return false;
      }
      var v := AppendVertex(vertex);
      added := true;
    }

    method Set(source: Label, target: Label, weight: int) returns (previous: int)
      requires Valid()
      modifies Repr
      ensures Valid()
      ensures previous == Weight(old(AF()), source, target)
      ensures AF() == PutWeight(if weight > 0 then AddVertex(AddVertex(old(AF()), source), target)
                                else AddVertex(old(AF()), source),
                                source, target, weight)
      ensures fresh(Repr - old(Repr))
    {
      var sourceVertex, added := AddEndpoints(source, target, weight);
      assert Weight(AF(), source, target) == Weight(old(AF()), source, target);
      previous := SetEdgeOfRecord(sourceVertex, target, weight);
    }

    /** The first half of `set`: finds the record of `source`, appending one
        when there is none, and does the same for `target` when the weight
        is positive. */
    method AddEndpoints(source: Label, target: Label, weight: int) returns (sourceVertex: Vertex, ghost added: set<object>)
      requires Valid()
      modifies this
      ensures Valid() && sourceVertex in vertices && sourceVertex.name == source
      ensures AF() == if weight > 0 then AddVertex(AddVertex(old(AF()), source), target)
                      else AddVertex(old(AF()), source)
      ensures Repr == old(Repr) + added && fresh(added)
    {
      if weight > 0 {
        sourceVertex, added := EnsureBoth(source, target);
      } else {
        sourceVertex, added := EnsureVertex(source);
      }
    }

    /** Finds or appends the record of `source`, then that of `target`. */
    method EnsureBoth(source: Label, target: Label) returns (sourceVertex: Vertex, ghost added: set<object>)
      requires Valid()
      modifies this
      ensures Valid() && sourceVertex in vertices && sourceVertex.name == source
      ensures AF() == AddVertex(AddVertex(old(AF()), source), target)
      ensures Repr == old(Repr) + added && fresh(added)
    {
      sourceVertex, added := EnsureVertex(source);
      ghost var repr := Repr;
      var _, more := EnsureVertex(target);
      Grown(old(Repr), repr, Repr, added, more);
      added := added + more;
    }

    /** Returns the record labelled `name`, appending a fresh one first when
        there is none. */
    method EnsureVertex(name: Label) returns (v: Vertex, ghost added: set<object>)
      requires Valid()
      modifies this
      ensures Valid() && v in vertices && v.name == name
      ensures AF() == AddVertex(old(AF()), name)
      ensures old(vertices) <= vertices
      ensures Repr == old(Repr) + added && fresh(added)
    {
      var found := FindVertex(name);
      if found == null {
        v := AppendVertex(name);
        added := {v};
      } else {
        v := found;
        added := {};
        AddVertexIdempotent(AF(), name);
      }
    }

    /** Lets the record `sourceVertex` set its edge to `target` and brings the
        table of outgoing maps up to date. */
    method SetEdgeOfRecord(sourceVertex: Vertex, target: Label, weight: int) returns (previous: int)
      requires Consistent() && RowsClosed(Adj) && sourceVertex in vertices
      requires weight > 0 ==> target in Adj
      modifies sourceVertex, this`Adj
      ensures Consistent() && RowsClosed(Adj)
      ensures previous == Weight(old(AF()), sourceVertex.name, target)
      ensures AF() == PutWeight(old(AF()), sourceVertex.name, target, weight)
      ensures vertices == old(vertices) && Repr == old(Repr)
    {
      var source := sourceVertex.name;
      ghost var adj := Adj;
      ghost var k := IndexOf(source);
      previous := sourceVertex.SetEdgeTo(target, weight);
      Adj := PutInRow(Adj, source, target, weight);
      assert vertices == old(vertices) && Repr == old(Repr) && Adj.Keys == adj.Keys;
      assert Adj[source] == sourceVertex.outgoing;
      forall i | 0 <= i < |vertices|
        ensures vertices[i].Valid() && vertices[i].name in Adj && Adj[vertices[i].name] == vertices[i].outgoing
      {
        var u := vertices[i];
        if i != k {
          assert u.name != source && u != sourceVertex;
          assert old(allocated(u) && u.Valid() && u.outgoing == Adj[u.name]);
          assert u.outgoing == old(u.outgoing);
          assert Adj[u.name] == adj[u.name];
        }
      }
      RowPut(adj, source, target, weight);
    }

    method Remove(vertex: Label) returns (removed: bool)
      requires Valid()
      modifies Repr
      ensures Valid()
      ensures removed <==> vertex in old(AF()).vertices
      ensures AF() == RemoveVertex(old(AF()), vertex)
      ensures Repr == old(Repr)
    {
      var vertexToRemove := FindVertex(vertex);
      if vertexToRemove == null {
        AFValid();
        RemoveAbsentVertexIsNoOp(AF(), vertex);
        return false;
      }
      // the list removal looks the record up by identity
      var k := 0;
      while vertices[k] != vertexToRemove
        invariant 0 <= k < |vertices| && vertexToRemove in vertices[k..]
        decreases |vertices| - k
      {
        k := k + 1;
      }
      ghost var adj := Adj;
      DropRecordAt(k);
      RemoveEdgesTo(vertex);
      assert Adj == Cascade(adj, vertex);
      RowRemove(adj, vertex);
      assert Repr == old(Repr) && this in Repr;
      assert forall x | x in vertices :: x in Repr;
      removed := true;
    }

    /** Takes the record at index `k` out of the list. */
    method DropRecordAt(k: int)
      requires Valid() && 0 <= k < |vertices|
      modifies this
      ensures Consistent()
      ensures vertices == old(vertices[..k] + vertices[k + 1..])
      ensures Adj == old(Adj) - {old(vertices[k].name)}
      ensures forall x | x in vertices :: x in old(vertices)
      ensures Repr == old(Repr)
    {
      DropRecord(vertices, k);
      Adj := Adj - {vertices[k].name};
      vertices := vertices[..k] + vertices[k + 1..];
      assert forall j | 0 <= j < |vertices| :: vertices[j] in old(vertices);
    }

    /** Asks every record in the list to drop its edge to `vertex`. */
    method RemoveEdgesTo(vertex: Label)
      requires Consistent()
      modifies vertices, this`Adj
      ensures Consistent() && vertices == old(vertices) && Repr == old(Repr)
      ensures Adj == Strip(old(Adj), vertex)
    {
      DropEdgesTo(vertex);
      StripKeys(Adj, vertex);
      Adj := Strip(Adj, vertex);
      forall i | 0 <= i < |vertices|
        ensures vertices[i].name in Adj && Adj[vertices[i].name] == vertices[i].outgoing
      {
        assert old(vertices[i].name in Adj && Adj[vertices[i].name] == vertices[i].outgoing);
      }
    }

    /** The loop of `remove`: every record drops its edge to `vertex`. */
    method DropEdgesTo(vertex: Label)
      requires forall i, j | 0 <= i < j < |vertices| :: vertices[i].name != vertices[j].name
      requires forall j | 0 <= j < |vertices| :: vertices[j].Valid()
      modifies vertices
      ensures forall j | 0 <= j < |vertices| :: vertices[j].Valid()
      ensures forall j | 0 <= j < |vertices| :: vertices[j].outgoing == old(vertices[j].outgoing) - {vertex}
    {
      for i := 0 to |vertices|
        invariant forall j | 0 <= j < |vertices| :: vertices[j].Valid()
        invariant forall j | 0 <= j < i :: vertices[j].outgoing == old(vertices[j].outgoing) - {vertex}
        invariant forall j | i <= j < |vertices| :: vertices[j].outgoing == old(vertices[j].outgoing)
      {
        assert forall j | 0 <= j < |vertices| && j != i :: vertices[j] != vertices[i];
        vertices[i].RemoveEdgeTo(vertex);
      }
    }

    method Vertices() returns (labels: set<Label>)
      requires Valid()
      ensures labels == AF().vertices
    {
      labels := {};
      for i := 0 to |vertices|
        invariant labels == LabelsOf(vertices[..i])
      {
        assert vertices[..i + 1] == vertices[..i] + [vertices[i]];
        labels := labels + {vertices[i].name};
      }
      assert vertices[..|vertices|] == vertices;
    }

    method Sources(target: Label) returns (sourcesMap: map<Label, int>)
      requires Valid()
      ensures sourcesMap == GraphSpec.Sources(AF(), target)
    {
      sourcesMap := map[];
      assert LabelsOf(vertices[..0]) == {};
      for i := 0 to |vertices|
        invariant sourcesMap == SourcesIn(Adj, target, LabelsOf(vertices[..i]))
      {
        var v := vertices[i];
        assert v.name in Adj && Adj[v.name] == v.outgoing && v.Valid();
        assert vertices[..i + 1] == vertices[..i] + [v];
        LabelsOfSnoc(vertices[..i], v);
        SourcesInAdd(Adj, target, LabelsOf(vertices[..i]), v.name);
        var weight := v.WeightTo(target);
        if weight > 0 {
          sourcesMap := sourcesMap[v.name := weight];
        }
      }
      assert vertices[..|vertices|] == vertices;
      SourcesOfFlatten(Adj, target);
    }

    /** Under the invariant, every vertex label has the index of its record. */
    lemma IndexOf(s: Label) returns (i: int)
      requires Consistent() && s in Adj
      ensures 0 <= i < |vertices| && vertices[i].name == s && vertices[i].outgoing == Adj[s]
    {
      assert s in LabelsOf(vertices);
      i :| 0 <= i < |vertices| && vertices[i].name == s;
    }

    method Targets(source: Label) returns (targetsMap: map<Label, int>)
      requires Valid()
      ensures targetsMap == GraphSpec.Targets(AF(), source)
    {
      TargetsOfFlatten(Adj.Keys, Adj, source);
      var sourceVertex := FindVertex(source);
      if sourceVertex == null {
        return map[];
      }
      targetsMap := sourceVertex.OutgoingEdges();
    }
  }
}
