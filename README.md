# Weighted directed graphs of string labels, two representations

The `ps2` graph package has one interface, a mutable weighted directed graph
whose vertices are string labels, and two classes that implement it:

- `ConcreteEdgesGraph` keeps a set of vertex labels and a list of immutable
  `Edge` values. Looking up an edge means scanning the list.
- `ConcreteVerticesGraph` keeps a list of mutable `Vertex` records. Each
  record owns a map from target label to the weight of its outgoing edge.

Both classes offer the same calls:

- `add(v)` inserts a vertex;
- `set(s, t, w)` adds, updates or deletes the edge from `s` to `t` and
  returns its previous weight (0 when there was none);
- `remove(v)` deletes a vertex together with its edges;
- `vertices()`, `sources(t)` and `targets(s)` are the queries.

This project models both classes as Dafny classes whose methods change their
fields in place. Each class has a representation invariant `Valid()`, which
is the invariant its comments document (ConcreteEdgesGraph.java:30-41,
ConcreteVerticesGraph.java:30-36), and an abstraction function `AF()` onto one abstract
value, `GraphSpec.Graph`. That value is a set of labels plus a map from
ordered (source, target) pairs to positive weights. Every method is proved
against a function on that value: `AddVertex`, `PutWeight`, `RemoveVertex`,
`Weight`, `Sources` and `Targets`. What those functions promise is proved
as lemmas in `GraphSpec`.

The files:

- `GraphSpec.dfy`: the abstract graph, its operations and their laws.
- `EdgesGraph.dfy`: the `Edge` datatype with its checked constructor, and
  the edge-list class. Its abstraction function reads the list from left to
  right (`EdgeMap`).
- `VerticesGraph.dfy`: the `Vertex` class and the vertex-list class. The
  vertex-list class carries a ghost table `Adj` from label to outgoing map,
  which `Valid()` ties to the records, and a ghost footprint `Repr` of the
  records it owns.
- `Interchange.dfy`: the two classes side by side.
  - It proves that a single `set` gives the same graph on both classes
    exactly when the weight is positive, the edge is a self-loop, or the
    target is already a vertex, and that a sequence made only of such calls
    (and of `add` and `remove`) runs alike on both. The sequence result is
    a sufficient condition, not a characterisation.
  - It gives the smallest sequence on which the two classes differ.
  - It replays the instance test's mutation story on both classes, for any
    three distinct labels.
  - It drives real objects of both classes through any sequence of calls.

Neither class rejects a negative weight: any weight `<= 0` deletes the
edge (ConcreteEdgesGraph.java:112, ConcreteVerticesGraph.java:277-282), and
the model does the same. The edge-list class adds both endpoints on every `set`. The
vertex-list class adds the target only when the weight is positive. The
model keeps this difference, and `Interchange` proves exactly where it shows.

## Model

| member | source | states |
|---|---|---|
| GraphSpec.Weight | ps2/src/graph/ConcreteVerticesGraph.java:302-305 | the weight of an edge, or 0 when there is none; in a valid graph the weight is positive exactly when the edge exists |
| GraphSpec.AddVertex | ps2/src/graph/ConcreteEdgesGraph.java:84-91 | inserting a vertex adds exactly that label, leaves every edge alone and keeps the invariant |
| GraphSpec.PutWeight | ps2/src/graph/ConcreteEdgesGraph.java:99-114 | the new weight of (s, t) is w when w is positive and 0 otherwise; no other pair and no vertex changes; the invariant holds when both endpoints are vertices |
| GraphSpec.RemoveVertex | ps2/src/graph/ConcreteEdgesGraph.java:121-139 | the vertex goes, exactly the edges with it as source or target go, every other weight stays, and the invariant holds |
| GraphSpec.SourcesExact | ps2/src/graph/ConcreteEdgesGraph.java:148-160 | `sources(t)` has key s exactly when there is an edge from s to t, mapped to its weight |
| GraphSpec.TargetsExact | ps2/src/graph/ConcreteEdgesGraph.java:163-175 | `targets(s)` has key t exactly when there is an edge from s to t, mapped to its weight |
| GraphSpec.UnknownLabelHasNoEdges | ps2/src/graph/ConcreteVerticesGraph.java:166-172 | in a valid graph a label that is not a vertex has empty sources and targets |
| GraphSpec.SourcesAfterWrite | ps2/src/graph/ConcreteEdgesGraph.java:152-156 | storing one weight changes `sources(x)` only in the entry of that edge's source, and only when the edge points at x |
| GraphSpec.TargetsAfterWrite | ps2/src/graph/ConcreteEdgesGraph.java:167-171 | storing one weight changes `targets(x)` only in the entry of that edge's target, and only when the edge leaves x |
| GraphSpec.TargetsAfterPut | ps2/src/graph/ConcreteEdgesGraph.java:102-114 | after a put, `targets(s)` maps t to w when w is positive and lacks t otherwise; every other entry and every other label's targets are unchanged |
| GraphSpec.SourcesAfterPut | ps2/src/graph/ConcreteEdgesGraph.java:102-114 | after a put, `sources(t)` maps s to w when w is positive and lacks s otherwise; everything else is unchanged |
| GraphSpec.SelfLoopSeenBothWays | ps2/test/graph/GraphInstanceTest.java:161-173 | a self-loop with a positive weight appears in both the targets and the sources of its vertex |
| GraphSpec.PutTwice | ps2/src/graph/ConcreteEdgesGraph.java:99-118 | a second put on the same pair reads the first weight and leaves only the second one behind |
| GraphSpec.RemovingAbsentEdgeIsNoOp | ps2/src/graph/ConcreteVerticesGraph.java:277-282 | a weight <= 0 on an edge that does not exist changes nothing |
| GraphSpec.AddVertexIdempotent | ps2/src/graph/ConcreteEdgesGraph.java:85-87 | adding a vertex twice equals adding it once; adding an existing vertex changes nothing |
| GraphSpec.RemoveAbsentVertexIsNoOp | ps2/src/graph/ConcreteEdgesGraph.java:122-124 | removing a label that is not a vertex of a valid graph changes nothing |
| GraphSpec.TargetsAfterRemove | ps2/src/graph/ConcreteEdgesGraph.java:128-133 | after removing v, v has no targets and every other label's targets lose exactly the key v |
| GraphSpec.SourcesAfterRemove | ps2/src/graph/ConcreteVerticesGraph.java:131-133 | after removing v, v has no sources and every other label's sources lose exactly the key v |
| GraphSpec.QueriesAfterRemove | ps2/test/graph/GraphInstanceTest.java:226-251 | both queries after a removal, as in the cascade test |
| EdgesGraph.NewEdge | ps2/src/graph/ConcreteEdgesGraph.java:233-245 | the constructor succeeds exactly when the weight is positive, and then stores its three arguments unchanged |
| EdgesGraph.EdgeMapKeys | ps2/src/graph/ConcreteEdgesGraph.java:24-28 | the pairs with a weight in the abstract graph are exactly the pairs of the listed edges |
| EdgesGraph.EdgeMapAppend | ps2/src/graph/ConcreteEdgesGraph.java:112-114 | appending an edge writes its weight under its pair |
| EdgesGraph.EdgeMapAt | ps2/src/graph/ConcreteEdgesGraph.java:38-40 | without parallel edges, each listed edge's weight is the weight of its pair |
| EdgesGraph.EdgeMapRemoveAt | ps2/src/graph/ConcreteEdgesGraph.java:102-109 | deleting one edge from a list without parallel edges deletes exactly its pair |
| EdgesGraph.RemoveAtNoDuplicates | ps2/src/graph/ConcreteEdgesGraph.java:106 | deleting one edge keeps the list free of parallel edges |
| EdgesGraph.WithoutKeeps | ps2/src/graph/ConcreteEdgesGraph.java:128-133 | every edge the removal loop keeps was in the list and does not touch the removed vertex |
| EdgesGraph.WithoutNoDuplicates | ps2/src/graph/ConcreteEdgesGraph.java:128-133 | filtering keeps the list free of parallel edges |
| EdgesGraph.EdgeMapWithout | ps2/src/graph/ConcreteEdgesGraph.java:128-133 | filtering out the edges that touch v removes exactly the pairs naming v |
| EdgesGraph.WithoutUntouched | ps2/src/graph/ConcreteEdgesGraph.java:128-133 | a list none of whose edges touches v is kept whole |
| EdgesGraph.DropKeepsRep | ps2/src/graph/ConcreteEdgesGraph.java:102-109 | deleting one edge keeps the invariant and deletes its pair |
| EdgesGraph.AppendKeepsRep | ps2/src/graph/ConcreteEdgesGraph.java:112-114 | appending a valid edge for a new pair between vertices keeps the invariant |
| EdgesGraph.WithoutKeepsRep | ps2/src/graph/ConcreteEdgesGraph.java:126-136 | the removal filter keeps the invariant once the vertex is gone |
| EdgesGraph.ArrowKeyNotInjective | ps2/src/graph/ConcreteEdgesGraph.java:76-79 | two different pairs share the arrow string "a->b->c"; a list that passes the arrow-string check has no two edges for one pair |
| EdgesGraph.ArrowKeyCollision | ps2/src/graph/ConcreteEdgesGraph.java:64-81 | `set("a->b", "c", 1)` then `set("a", "b->c", 1)` reach a state that keeps the documented invariant but fails the arrow-string check |
| EdgesGraph.ConcreteEdgesGraph.AFValid | ps2/src/graph/ConcreteEdgesGraph.java:30-41 | the representation invariant makes the abstract graph valid |
| EdgesGraph.ConcreteEdgesGraph.constructor | ps2/src/graph/ConcreteEdgesGraph.java:56-59 | a new graph is valid and empty |
| EdgesGraph.ConcreteEdgesGraph.Add | ps2/src/graph/ConcreteEdgesGraph.java:84-91 | returns true exactly when the vertex was new, inserts it, leaves the edge list untouched and keeps the invariant |
| EdgesGraph.ConcreteEdgesGraph.Set | ps2/src/graph/ConcreteEdgesGraph.java:94-118 | returns the previous weight or 0, adds both endpoints whatever the weight, puts the weight (<= 0 deletes) and keeps the invariant |
| EdgesGraph.ConcreteEdgesGraph.Remove | ps2/src/graph/ConcreteEdgesGraph.java:121-139 | returns true exactly when the vertex was there, keeps exactly the edges that do not touch it, in order, and keeps the invariant |
| EdgesGraph.ConcreteEdgesGraph.Vertices | ps2/src/graph/ConcreteEdgesGraph.java:142-145 | returns the vertex set of the abstract graph |
| EdgesGraph.ConcreteEdgesGraph.Sources | ps2/src/graph/ConcreteEdgesGraph.java:148-160 | the scan returns exactly the abstract `sources(t)` |
| EdgesGraph.ConcreteEdgesGraph.Targets | ps2/src/graph/ConcreteEdgesGraph.java:163-175 | the scan returns exactly the abstract `targets(s)` |
| VerticesGraph.FlattenExact | ps2/src/graph/ConcreteVerticesGraph.java:24-28 | the edges of the graph are exactly the entries of the vertices' outgoing maps |
| VerticesGraph.FlattenNewRow | ps2/src/graph/ConcreteVerticesGraph.java:92 | a new vertex with no outgoing edges adds a vertex and no edge |
| VerticesGraph.FlattenPut | ps2/src/graph/ConcreteVerticesGraph.java:270-286 | one vertex's put or remove on its own map is the put of the graph's edge map |
| VerticesGraph.RowPut | ps2/src/graph/ConcreteVerticesGraph.java:113 | the vertex's edge update is `PutWeight` on the whole graph, reads the previous weight, and keeps every edge between vertices when the target exists |
| VerticesGraph.StripKeys | ps2/src/graph/ConcreteVerticesGraph.java:131-133 | the cascade keeps every record and drops only the key v from each map |
| VerticesGraph.FlattenCascade | ps2/src/graph/ConcreteVerticesGraph.java:127-133 | dropping the record of v and the key v everywhere removes exactly the edges that touch v |
| VerticesGraph.RowRemove | ps2/src/graph/ConcreteVerticesGraph.java:120-137 | the record removal plus the cascade is `RemoveVertex` on the graph and keeps every edge between vertices |
| VerticesGraph.TargetsOfFlatten | ps2/src/graph/ConcreteVerticesGraph.java:166-176 | `targets(s)` is the outgoing map of s, or empty when s has no record |
| VerticesGraph.SourcesInAdd | ps2/src/graph/ConcreteVerticesGraph.java:154-159 | visiting one more vertex adds its weight to t, when it has an edge to t |
| VerticesGraph.SourcesOfFlatten | ps2/src/graph/ConcreteVerticesGraph.java:150-163 | `sources(t)` gathers the weight to t of every vertex that has one |
| VerticesGraph.LabelsOfSnoc | ps2/src/graph/ConcreteVerticesGraph.java:140-147 | appending a record adds exactly its label |
| VerticesGraph.DropRecord | ps2/src/graph/ConcreteVerticesGraph.java:127 | taking a record out keeps labels distinct and loses exactly its label |
| VerticesGraph.AppendRecord | ps2/src/graph/ConcreteVerticesGraph.java:30-36 | appending a record with a new label keeps labels distinct and adds exactly that label |
| VerticesGraph.Vertex.constructor | ps2/src/graph/ConcreteVerticesGraph.java:234-241 | a new vertex has the given label, no outgoing edges, and is valid |
| VerticesGraph.Vertex.SetEdgeTo | ps2/src/graph/ConcreteVerticesGraph.java:270-286 | returns the old weight or 0; stores w when positive, removes the key otherwise; other keys unchanged; weights stay positive; the result is 0 exactly when there was no edge |
| VerticesGraph.Vertex.RemoveEdgeTo | ps2/src/graph/ConcreteVerticesGraph.java:292-295 | deletes only the key `target` (nothing when absent) and keeps the vertex valid |
| VerticesGraph.Vertex.WeightTo | ps2/src/graph/ConcreteVerticesGraph.java:302-305 | the stored weight, 0 when there is no edge, and in a valid vertex 0 exactly when there is no edge |
| VerticesGraph.Vertex.OutgoingEdges | ps2/src/graph/ConcreteVerticesGraph.java:312-315 | a copy of the outgoing map, all of whose weights are positive |
| VerticesGraph.ConcreteVerticesGraph.AFValid | ps2/src/graph/ConcreteVerticesGraph.java:30-36 | the representation invariant makes the abstract graph valid |
| VerticesGraph.ConcreteVerticesGraph.constructor | ps2/src/graph/ConcreteVerticesGraph.java:50-53 | a new graph is valid and empty |
| VerticesGraph.ConcreteVerticesGraph.FindVertex | ps2/src/graph/ConcreteVerticesGraph.java:77-84 | returns a record with the label, and null exactly when no record has it |
| VerticesGraph.ConcreteVerticesGraph.AppendVertex | ps2/src/graph/ConcreteVerticesGraph.java:92 | appends a fresh record with no edges, adds the vertex and keeps the invariant |
| VerticesGraph.ConcreteVerticesGraph.Add | ps2/src/graph/ConcreteVerticesGraph.java:87-95 | returns true exactly when the vertex was new; then a fresh record with no edges is appended, otherwise the list is unchanged; the invariant holds |
| VerticesGraph.ConcreteVerticesGraph.Set | ps2/src/graph/ConcreteVerticesGraph.java:98-117 | returns the previous weight or 0, adds the source always and the target only for a positive weight, puts the weight and keeps the invariant |
| VerticesGraph.ConcreteVerticesGraph.AddEndpoints | ps2/src/graph/ConcreteVerticesGraph.java:100-110 | finds or creates the source record, and the target's only when the weight is positive |
| VerticesGraph.ConcreteVerticesGraph.EnsureBoth | ps2/src/graph/ConcreteVerticesGraph.java:100-110 | both endpoints become vertices, the source record is returned |
| VerticesGraph.ConcreteVerticesGraph.EnsureVertex | ps2/src/graph/ConcreteVerticesGraph.java:100-104 | returns the record with the label, appending one when there is none |
| VerticesGraph.ConcreteVerticesGraph.SetEdgeOfRecord | ps2/src/graph/ConcreteVerticesGraph.java:113 | the record's `setEdgeTo` reads the previous weight of the graph and performs `PutWeight` on it |
| VerticesGraph.ConcreteVerticesGraph.Remove | ps2/src/graph/ConcreteVerticesGraph.java:120-137 | returns true exactly when the vertex was there, removes it and exactly its edges, and keeps the invariant |
| VerticesGraph.ConcreteVerticesGraph.DropRecordAt | ps2/src/graph/ConcreteVerticesGraph.java:127 | takes one record out of the list and its row out of the table |
| VerticesGraph.ConcreteVerticesGraph.RemoveEdgesTo | ps2/src/graph/ConcreteVerticesGraph.java:131-133 | every surviving record loses its key v and nothing else |
| VerticesGraph.ConcreteVerticesGraph.DropEdgesTo | ps2/src/graph/ConcreteVerticesGraph.java:131-133 | the loop over the records removes the key v from each and keeps each valid |
| VerticesGraph.ConcreteVerticesGraph.Vertices | ps2/src/graph/ConcreteVerticesGraph.java:140-147 | the labels gathered are the vertex set of the abstract graph |
| VerticesGraph.ConcreteVerticesGraph.Sources | ps2/src/graph/ConcreteVerticesGraph.java:150-163 | the scan returns exactly the abstract `sources(t)` |
| VerticesGraph.ConcreteVerticesGraph.Targets | ps2/src/graph/ConcreteVerticesGraph.java:166-176 | returns exactly the abstract `targets(s)`, empty for an unknown label |
| VerticesGraph.ConcreteVerticesGraph.IndexOf | ps2/src/graph/ConcreteVerticesGraph.java:34-35 | every vertex label has a record in the list |
| Interchange.SetGraphMeaning | ps2/src/graph/ConcreteVerticesGraph.java:98-117 | what `set` does on either class: which endpoints become vertices, the new weight, no other vertex or edge changes, the invariant holds |
| Interchange.StepMeaning | ps2/src/graph/ConcreteEdgesGraph.java:84-139 | every call keeps the invariant; `add` and `remove` report whether the vertex was new or present; `set` returns 0 exactly when there was no edge |
| Interchange.RunKeepsValid | ps2/src/graph/ConcreteEdgesGraph.java:64-81 | any sequence of calls keeps the invariant |
| Interchange.SetAgreesExactly | ps2/src/graph/ConcreteVerticesGraph.java:106-110 | the two `set`s give the same graph exactly when the weight is positive, the edge is a self-loop or the target exists |
| Interchange.StepsAgree | ps2/src/graph/ConcreteEdgesGraph.java:94-118 | outside that one case a call gives the same graph and reply on both classes |
| Interchange.SetWithoutWeightDiverges | ps2/src/graph/ConcreteEdgesGraph.java:96-97 | `set("A", "B", 0)` on an empty graph leaves B a vertex of the edge-list class only, with the same reply 0 |
| Interchange.RunsAgree | ps2/src/graph/ConcreteVerticesGraph.java:98-117 | sequences of agreeing calls leave the same graph and replies on both classes |
| Interchange.PositiveRunAgrees | ps2/src/graph/ConcreteVerticesGraph.java:108-110 | any sequence whose `set`s all have positive weights is one on which the classes agree |
| Interchange.SetPositive | ps2/src/graph/ConcreteEdgesGraph.java:94-118 | a `set` with a positive weight adds both endpoints and stores the weight, on either class |
| Interchange.StorySetStep | ps2/test/graph/GraphInstanceTest.java:379-392 | each of the story's four positive `set`s reaches the expected graph and reply |
| Interchange.StoryRemoveStep | ps2/test/graph/GraphInstanceTest.java:395-396 | `remove(B)` reaches the expected graph and returns true |
| Interchange.StoryClearStep | ps2/test/graph/GraphInstanceTest.java:405-407 | `set(A, C, 0)` clears the last edge and returns 20 |
| Interchange.StoryStep | ps2/test/graph/GraphInstanceTest.java:372-410 | every call of the story takes its graph to the next with the expected reply |
| Interchange.NoEdgesNoQueries | ps2/test/graph/GraphInstanceTest.java:408-409 | a graph without edges has empty sources and targets |
| Interchange.TargetsAfterTwoEdges | ps2/test/graph/GraphInstanceTest.java:384 | `targets(A)` is {B: 10, C: 20} after the first two calls |
| Interchange.SourcesAfterThirdEdge | ps2/test/graph/GraphInstanceTest.java:387-388 | `sources(C)` is {A: 20, B: 30} after the third call |
| Interchange.TargetsAfterUpdate | ps2/test/graph/GraphInstanceTest.java:393 | `targets(A)` is {B: 5, C: 20} after the update |
| Interchange.QueriesAfterRemovingB | ps2/test/graph/GraphInstanceTest.java:399-403 | after `remove(B)`, `targets(A)` is {C: 20} and `sources(C)` is {A: 20} |
| Interchange.StoryAfterTwoEdges | ps2/test/graph/GraphInstanceTest.java:379-384 | on either class the vertices are {A, B, C} and `targets(A)` is {B: 10, C: 20} |
| Interchange.StoryAfterThirdEdge | ps2/test/graph/GraphInstanceTest.java:386-388 | on either class `sources(C)` is {A: 20, B: 30} |
| Interchange.StoryAfterUpdate | ps2/test/graph/GraphInstanceTest.java:390-393 | on either class the update returns 10 and `targets(A)` is {B: 5, C: 20} |
| Interchange.StoryAfterRemove | ps2/test/graph/GraphInstanceTest.java:395-403 | on either class `remove(B)` returns true, the vertices are {A, C} and both queries lost B |
| Interchange.StoryEnd | ps2/test/graph/GraphInstanceTest.java:405-409 | on either class every reply is as expected and no edge is left |
| Interchange.StoryRun | ps2/test/graph/GraphInstanceTest.java:372-410 | after its first k calls the story is at its k-th graph with its first k replies |
| Interchange.ApplyToEdges | ps2/src/graph/ConcreteEdgesGraph.java:84-139 | one call on an edge-list object does what the abstract step says and keeps the invariant |
| Interchange.ApplyToVertices | ps2/src/graph/ConcreteVerticesGraph.java:87-137 | one call on a vertex-list object does what the abstract step says and keeps the invariant |
| Interchange.ReplayOnEdges | ps2/src/graph/ConcreteEdgesGraph.java:56-139 | a new edge-list object driven through any calls returns the replies of the abstract run |
| Interchange.ReplayOnVertices | ps2/src/graph/ConcreteVerticesGraph.java:50-137 | a new vertex-list object driven through any calls returns the replies of the abstract run |
| Interchange.Replay | ps2/test/graph/GraphInstanceTest.java:372-410 | both classes give the abstract replies, and the same replies when every call is one on which they agree |

## Left out

- `toString` on both graphs, on `Vertex` and on `Edge`: these build
  diagnostic text whose order follows `HashMap`/`HashSet` iteration.
- The `Collections.unmodifiableSet`/`unmodifiableMap` wrappers and the
  defensive copies: Dafny sets and maps are values, so a returned copy
  cannot alias the representation.
- Null checks, including the `IllegalArgumentException` for a null label in
  the `Edge` and `Vertex` constructors: Dafny strings cannot be null. The
  `Edge` constructor's weight check is modelled, by `NewEdge`.
- `checkRep` as a runtime `assert`: each class's `Valid()` is the invariant
  its comments document, required and ensured by every method.
- EdgesGraph.ConcreteEdgesGraph.Valid compares edges by their (source,
  target) pair, as the comment at ConcreteEdgesGraph.java:38-40 does. The
  `checkRep` at lines 76-79 compares the string source + "->" + target
  instead, which gives false positives for labels containing "->" (see
  "## Findings"); that string check is modelled by `CheckRepAsWritten` only.
- Java `int` overflow: weights are only stored, compared and returned, so
  they are unbounded integers with a positivity invariant.
- The `Edge` getters: they are the fields of the `Edge` datatype.
- The iteration order of the `HashSet` of vertices: the vertex set is a
  Dafny `set`.
- `ArrayList.remove(Object)` in the vertex-list `remove` finds the record by
  identity. The model finds the index with a search loop and slices it out.
- VerticesGraph.ConcreteVerticesGraph.Valid also requires that every key of
  an outgoing map names a vertex. `checkRep` does not check this, but the
  target creation in `set` and the cascade in `remove` keep it, and the
  abstraction function relies on it.
- VerticesGraph.ConcreteVerticesGraph.Remove keeps the removed record in the
  ghost footprint `Repr`: the footprint only grows.
- The `Graph` interface file and the JUnit factories are not part of this
  model. The story test of `GraphInstanceTest` is modelled on the abstract
  graph, by `Interchange`.

## Findings

| source | as written | input that shows it | evidently intended | confidence | as-written member | corrected member |
|---|---|---|---|---|---|---|
| ps2/src/graph/ConcreteEdgesGraph.java:76-79 | `checkRep` detects duplicate edges by the string source + "->" + target | `set("a->b", "c", 1)` then `set("a", "b->c", 1)`: both edges give "a->b->c", so the assert at line 78 fails with assertions on, after `edges` has changed | no two edges join the same (source, target) pair, as the comment at lines 38-40 says | not executed | EdgesGraph.ArrowKeyCollision | EdgesGraph.ConcreteEdgesGraph.Set |
