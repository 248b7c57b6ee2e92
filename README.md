# Graph: a directed graph on adjacency lists

This project models the `Graph` class of `Source.cpp`. The class stores a
directed graph as a singly linked list of vertices. The list is kept in
insertion order, and the vertex values are unique. Each vertex owns a singly
linked list of outgoing edges, in insertion order. Each vertex also has a
`visited` flag, which only the depth-first traversal uses.

The model is in two files:

- `graph.dfy`, module `Graphs`, holds class `Graph`. Its state is three
  fields:
  - `vertices: seq<int>` is the vertex chain;
  - `edges: map<int, seq<int>>` maps each vertex to the destination values of
    its edges;
  - `visited: set<int>` holds the vertices whose flag is set.

  Each operation is a method that keeps the loops of the original, apart
  from the pointer walks listed under "## Left out". Each returns a
  `Status` (or an `Option`) where the original prints a success or error
  message.
- `graph_spec.dfy`, module `GraphSpec`, holds the specification:
  - `RemoveFirst` removes the first occurrence of a value;
  - `UnlinkVertex` gives the effect of deleting a vertex on the adjacency map;
  - `Closed` says every edge ends at an existing vertex;
  - `Reachable` is reachability along paths;
  - `DfsInvariant` is the invariant of the traversal.

  The file also holds the lemmas that connect these definitions.

The model follows the code's behaviour, with the representation choices
listed under "## Left out":

- parallel edges are accepted;
- `deleteEdge` unlinks only the first matching edge;
- `deleteVertex` unlinks at most one edge to the deleted vertex from each
  vertex's list.

So a vertex with two parallel edges to the deleted vertex keeps one of them,
and that edge now dangles. `ParallelEdgeLeavesDangling` exhibits such a graph.
`DeleteVertex` keeps the graph closed whenever no vertex has two edges to the
deleted one. The traversal only needs the part of the graph reachable from
its start vertex to be free of dangling edges. `DanglingOutsideTraversal`
shows a graph with a dangling edge on which a traversal is still defined.

insertEdge does not reject a duplicate edge. deleteVertex does not remove
every edge to the deleted vertex. The model follows the code.

## Model

| member | source | states |
|---|---|---|
| Graphs.Graph.constructor | Source.cpp:17-21 | A new graph has no vertices, no edges and no flag set, and is well formed. |
| Graphs.Graph.FindVertex | Source.cpp:171-180 | Returns None exactly when no vertex has the value. Otherwise it returns the position of the first vertex with that value. |
| Graphs.Graph.IsEmpty | Source.cpp:167-169 | True exactly when the vertex list is empty. |
| Graphs.Graph.InsertVertex | Source.cpp:35-59 | A value that is already present is refused with DuplicateVertex and nothing changes. Otherwise the vertex is appended at the end with an empty edge list and a clear flag. Well-formedness and closedness are preserved. |
| Graphs.Graph.InsertEdge | Source.cpp:94-117 | If either endpoint is missing the result is VertexNotFound and nothing changes. Otherwise the edge is appended to the end of the source's list, even when it duplicates an existing edge, and no other list changes. Closedness is preserved. |
| Graphs.Graph.DeleteEdge | Source.cpp:119-148 | A missing source gives VertexNotFound and a missing edge gives EdgeNotFound; in both cases nothing changes. Otherwise only the first matching edge of the source's list is removed. Closedness is preserved. |
| Graphs.Graph.DeleteVertex | Source.cpp:62-92 | A missing value gives VertexNotFound and nothing changes. Otherwise, in the visiting order of lines 76-81, the first edge to the vertex is unlinked from every list, including the vertex's own. The vertex is then removed from the chain. The new adjacency is exactly UnlinkVertex of the old one. The graph stays well formed. It stays closed provided no vertex had two edges to the deleted one. |
| Graphs.Graph.AdjacentVertex | Source.cpp:150-165 | Returns None exactly when the vertex is absent. Otherwise it returns the destinations of the vertex's edges in insertion order, parallel edges included. |
| Graphs.Graph.DisplayGraph | Source.cpp:223-236 | Returns one row per vertex in chain order. Each row pairs the vertex with its destinations in edge order. |
| Graphs.Graph.ResetVisited | Source.cpp:215-221 | Afterwards no flag is set and the graph is unchanged otherwise. |
| Graphs.Graph.PushUnvisited | Source.cpp:201-207 | The stack grows by exactly the destinations whose flag is clear, in edge order. A destination that occurs several times is pushed each time. |
| Graphs.Graph.DFS | Source.cpp:182-213 | Callable whenever every edge leaving a vertex reachable from the start ends at a vertex. Returns None when the start vertex is absent. Otherwise the output starts at the start vertex and repeats no vertex. It contains exactly the vertices reachable from the start. Each vertex after the first is the target of an edge from a vertex output before it. All flags are clear again afterwards. |
| GraphSpec.RemoveFirst | Source.cpp:127-145 | Removing the first occurrence shortens the list by one exactly when the value occurs, and leaves its length unchanged otherwise. |
| GraphSpec.RemoveFirstAt | Source.cpp:130-145 | If position i holds the first occurrence, RemoveFirst is the list spliced around i. This is what relinking prev->next does. |
| GraphSpec.RemoveFirstAbsent | Source.cpp:130-138 | When the value does not occur, the list is left unchanged. |
| GraphSpec.RemoveFirstMultiset | Source.cpp:127-146 | The result is the original minus exactly one copy of the value. |
| GraphSpec.RemoveFirstMembers | Source.cpp:127-146 | An element survives exactly when it is in the list and is either a different value or one of several copies of the removed value. |
| GraphSpec.RemoveFirstDistinct | Source.cpp:62-90 | On a list without repeats, such as the vertex chain, removing the first occurrence removes the value entirely and keeps the list repeat-free. |
| GraphSpec.UnlinkVertex | Source.cpp:76-90 | The vertex is dropped from the keys. Every remaining list loses exactly one copy of the vertex if it had any. |
| GraphSpec.CleanupStep | Source.cpp:77-81 | One iteration of the cleanup loop unlinks the first edge to the vertex from the current list and from no other list. |
| GraphSpec.CleanedIsUnlinked | Source.cpp:76-90 | Once the cleanup loop has visited every vertex, dropping the vertex's own list gives UnlinkVertex. |
| GraphSpec.DeleteVertexWellFormed | Source.cpp:62-90 | Deleting a vertex keeps the chain free of repeats, the keys equal to the chain and the flags within the chain. |
| GraphSpec.UnlinkVertexKeepsClosed | Source.cpp:76-90 | If the graph is closed and no vertex has two edges to v, deleting v leaves no dangling edge. |
| GraphSpec.ParallelEdgeLeavesDangling | Source.cpp:76-90 | Counterexample: in the closed graph 1 -> 2, 1 -> 2, deleting vertex 2 leaves 1 with an edge to the deleted vertex 2. |
| GraphSpec.DanglingOutsideTraversal | Source.cpp:197-207 | Example: deleting 2 from the graph 1 -> 2, 1 -> 2, 3 leaves a dangling edge, so the graph is not closed. Everything reachable from 3 is still closed, so a traversal from 3 is defined. |
| GraphSpec.ReachableStep | Source.cpp:197-207 | Following an edge from a reachable vertex reaches its destination. |
| GraphSpec.ClosedContainsReachable | Source.cpp:193-209 | A vertex set that contains s and is closed under successors contains every vertex reachable from s. |
| GraphSpec.Unvisited | Source.cpp:201-207 | The destinations pushed by the edge scan are exactly those in the list whose flag is clear. |
| GraphSpec.DfsInit | Source.cpp:189-190 | The traversal invariant holds with only the start vertex on the stack and nothing output. |
| GraphSpec.DfsSkip | Source.cpp:194-197 | Popping a vertex that is already visited keeps the invariant. |
| GraphSpec.DfsVisit | Source.cpp:194-207 | Popping an unvisited vertex keeps the invariant, provided the edges of vertices reachable from the start end at vertices. This covers outputting the vertex, setting its flag and pushing its unvisited destinations. |
| GraphSpec.DfsDone | Source.cpp:193-209 | When the stack is empty, the output starts at the start vertex and repeats nothing. Each later vertex is discovered from an earlier one. The output is exactly the set of reachable vertices. |

## Left out

- getValidInt and main (lines 239 onwards) are console input and a menu loop. They are not part of this model.
- Console text is not modelled. The messages become Status results, and the printed lists become returned sequences.
- Heap allocation and `delete` are not modelled. Vertices and edges are values in sequences and maps, so leaks and freed memory have no counterpart.
- An edge is recorded by the value of its destination vertex, not by a pointer to it. The two agree while the graph is closed, because values are unique. A dangling edge left by `deleteVertex` points at freed memory in the original. Reading its value there is undefined behaviour. In the model the edge keeps the old value, so it would refer to a vertex re-inserted later with the same value.
- Graphs.Graph.DFS: requires that every edge leaving a vertex reachable from the start ends at a vertex. The original reads the target of each edge of each vertex it visits (lines 201-204). A dangling edge there means it reads freed memory, which is undefined behaviour. Dangling edges elsewhere are allowed, as in the source. It also requires all flags to be clear on entry, which every public operation guarantees.
- Graphs.Graph.DFS: the order among siblings is not given as a function. The contract states the start vertex, that nothing repeats, the exact reachable set and the discovery order, but not the exact sequence. So "running it twice gives the same output" is not stated as a lemma.
- The tail walks of insertVertex (lines 52-56) and insertEdge (lines 109-113) are modelled as appending to a sequence.
- The search loop of deleteVertex (lines 63-69) is modelled by a call to FindVertex, which finds the same first match. The prev/current relinking is modelled as splicing the sequence.
