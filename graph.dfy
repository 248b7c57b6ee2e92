/**
 The `Graph` class: a directed graph kept as a list of vertices in insertion
 order, each vertex owning a list of outgoing edges in insertion order, and a
 `visited` flag per vertex that only the depth-first traversal sets.

 The vertex chain (`head`, `next`) is the sequence `vertices`; a vertex's edge
 chain is `edges[v]`, each edge recorded by the value of the vertex it points
 at; the set `visited` holds the vertices whose flag is true.
 */
module Graphs {
  import opened GraphSpec

  class Graph {
    var vertices: seq<int>
    var edges: map<int, seq<int>>
    var visited: set<int>

    ghost predicate Valid()
      reads this
    {
      WellFormed(vertices, edges, visited)
    }

    constructor ()
      ensures Valid()
      ensures vertices == [] && edges == map[] && visited == {}
    {
      vertices := [];
      edges := map[];
      visited := {};
    }

    /** The position of the vertex with value `value`, or None (the null pointer) when there is none. */
    method FindVertex(value: int) returns (r: Option<nat>)
      ensures r.None? <==> value !in vertices
      ensures r.Some? ==> r.value < |vertices| && vertices[r.value] == value && value !in vertices[..r.value]
    {
      var i := 0;
      while i < |vertices|
        invariant 0 <= i <= |vertices|
        invariant value !in vertices[..i]
      {
        if vertices[i] == value {
          return Some(i);
        }
        assert vertices[..i + 1] == vertices[..i] + [vertices[i]];
        i := i + 1;
      }
      assert vertices[..i] == vertices;
      return None;
    }

    method IsEmpty() returns (empty: bool)
      ensures empty <==> |vertices| == 0
    {
      empty := vertices == [];
    }

    /** Appends a new vertex with no edges and a clear flag, unless the value is already taken. */
    method InsertVertex(value: int) returns (s: Status)
      requires Valid()
      modifies this
      ensures Valid()
      ensures s == if value in old(vertices) then DuplicateVertex else Done
      ensures s == DuplicateVertex ==> vertices == old(vertices) && edges == old(edges)
      ensures s == Done ==> vertices == old(vertices) + [value] && edges == old(edges)[value := []]
      ensures s == Done ==> value !in visited
      ensures visited == old(visited)
      ensures Closed(old(edges)) ==> Closed(edges)
    {
      var found := FindVertex(value);
      if found.Some? {
        return DuplicateVertex;
      }
      vertices := vertices + [value];
      edges := edges[value := []];
      s := Done;
    }

    /** Appends an edge `source -> destination` when both vertices exist, parallel edges included. */
    method InsertEdge(source: int, destination: int) returns (s: Status)
      requires Valid()
      modifies this
      ensures Valid()
      ensures s == if source in old(vertices) && destination in old(vertices) then Done else VertexNotFound
      ensures vertices == old(vertices) && visited == old(visited)
      ensures s == VertexNotFound ==> edges == old(edges)
      ensures s == Done ==> edges == old(edges)[source := old(edges)[source] + [destination]]
      ensures Closed(old(edges)) ==> Closed(edges)
    {
      var from := FindVertex(source);
      var to := FindVertex(destination);
      if from.None? || to.None? {
        return VertexNotFound;
      }
      edges := edges[source := edges[source] + [destination]];
      s := Done;
    }

    /** Unlinks the first edge `source -> destination` from `source`'s list. */
    method DeleteEdge(source: int, destination: int) returns (s: Status)
      requires Valid()
      modifies this
      ensures Valid()
      ensures s == if source !in old(vertices) then VertexNotFound
                   else if destination !in old(edges)[source] then EdgeNotFound
                   else Done
      ensures vertices == old(vertices) && visited == old(visited)
      ensures s != Done ==> edges == old(edges)
      ensures s != VertexNotFound ==> edges == old(edges)[source := RemoveFirst(old(edges)[source], destination)]
      ensures Closed(old(edges)) ==> Closed(edges)
    {
      var found := FindVertex(source);
      if found.None? {
        return VertexNotFound;
      }
      var list := edges[source];
      var j := 0;
      while j < |list| && list[j] != destination
        invariant 0 <= j <= |list|
        invariant destination !in list[..j]
      {
        assert list[..j + 1] == list[..j] + [list[j]];
        j := j + 1;
      }
      if j == |list| {
        assert list[..j] == list;
        RemoveFirstAbsent(list, destination);
        return EdgeNotFound;
      }
      RemoveFirstAt(list, destination, j);
      forall x | x in RemoveFirst(list, destination) ensures x in list {
        RemoveFirstMembers(list, destination, x);
      }
      edges := edges[source := list[..j] + list[j + 1..]];
      s := Done;
    }

    /**
     Unlinks, for every vertex in turn (itself included), the first edge to
     `value`, then unlinks the vertex together with its own edge list.
     */
    method DeleteVertex(value: int) returns (s: Status)
      requires Valid()
      modifies this
      ensures Valid()
      ensures s == if value in old(vertices) then Done else VertexNotFound
      ensures s == VertexNotFound ==> vertices == old(vertices) && edges == old(edges) && visited == old(visited)
      ensures s == Done ==> vertices == RemoveFirst(old(vertices), value)
      ensures s == Done ==> edges == UnlinkVertex(old(edges), value)
      ensures s == Done ==> visited == old(visited) - {value}
      ensures Closed(old(edges)) && AtMostOneEdgeTo(old(edges), value) ==> Closed(edges)
    {
      var found := FindVertex(value);
      if found.None? {
        return VertexNotFound;
      }
      var k := found.value;
      ghost var before := edges;
      var t := 0;
      while t < |vertices|
        invariant 0 <= t <= |vertices|
        invariant Valid()
        invariant vertices == old(vertices) && visited == old(visited)
        invariant CleanedFor(before, edges, vertices[..t], value)
      {
        var u := vertices[t];
        assert vertices[..t + 1] == vertices[..t] + [u];
        assert u in vertices && u !in vertices[..t];
        CleanupStep(before, edges, vertices[..t], u, value);
        var _ := DeleteEdge(u, value);
        t := t + 1;
      }
      assert vertices[..t] == vertices;
      CleanedIsUnlinked(before, edges, vertices, value);
      RemoveFirstAt(vertices, value, k);
      DeleteVertexWellFormed(vertices, before, visited, value);
      vertices := vertices[..k] + vertices[k + 1..];
      edges := edges - {value};
      visited := visited - {value};
      s := Done;
      if Closed(before) && AtMostOneEdgeTo(before, value) {
        UnlinkVertexKeepsClosed(before, value);
      }
    }

    /** The destinations of `value`'s edges, in the order the edges were inserted. */
    method AdjacentVertex(value: int) returns (r: Option<seq<int>>)
      requires Valid()
      ensures r.None? <==> value !in vertices
      ensures r.Some? ==> r.value == edges[value]
    {
      var found := FindVertex(value);
      if found.None? {
        return None;
      }
      var list := edges[value];
      var out := [];
      var e := 0;
      while e < |list|
        invariant 0 <= e <= |list|
        invariant out == list[..e]
      {
        out := out + [list[e]];
        e := e + 1;
      }
      return Some(out);
    }

    /** One row per vertex, in insertion order: the vertex and its destinations in edge order. */
    method DisplayGraph() returns (rows: seq<(int, seq<int>)>)
      requires Valid()
      ensures |rows| == |vertices|
      ensures forall i :: 0 <= i < |rows| ==> rows[i].0 == vertices[i] && rows[i].1 == edges[vertices[i]]
    {
      rows := [];
      var i := 0;
      while i < |vertices|
        invariant 0 <= i <= |vertices|
        invariant |rows| == i
        invariant forall k :: 0 <= k < i ==> rows[k].0 == vertices[k] && rows[k].1 == edges[vertices[k]]
      {
        assert vertices[i] in vertices;
        var list := edges[vertices[i]];
        var line := [];
        var e := 0;
        while e < |list|
          invariant 0 <= e <= |list|
          invariant line == list[..e]
        {
          line := line + [list[e]];
          e := e + 1;
        }
        rows := rows + [(vertices[i], line)];
        i := i + 1;
      }
    }

    /** Clears the flag of every vertex. */
    method ResetVisited()
      requires Valid()
      modifies this`visited
      ensures Valid()
      ensures visited == {}
    {
      var i := 0;
      while i < |vertices|
        invariant 0 <= i <= |vertices|
        invariant Valid()
        invariant forall v :: v in visited ==> v in vertices[i..]
      {
        visited := visited - {vertices[i]};
        i := i + 1;
      }
      assert vertices[i..] == [];
      assert forall v :: v !in visited;
    }

    /** The edge scan of one traversal step: push each destination whose flag is clear, in edge order. */
    method PushUnvisited(list: seq<int>, stack: seq<int>) returns (pushed: seq<int>)
      ensures pushed == stack + Unvisited(list, visited)
    {
      pushed := stack;
      var e := 0;
      while e < |list|
        invariant 0 <= e <= |list|
        invariant pushed == stack + Unvisited(list[..e], visited)
      {
        var x := list[e];
        assert list[..e + 1] == list[..e] + [x];
        UnvisitedSnoc(list[..e], x, visited);
        if x !in visited {
          pushed := pushed + [x];
        }
        e := e + 1;
      }
      assert list[..e] == list;
    }

    /**
     Depth-first traversal from `start` with an explicit stack: pop a vertex;
     if its flag is clear, output it, set the flag and push every destination
     of its edges whose flag is clear, in edge order. The flags are cleared at
     the end.
     */
    method DFS(start: int) returns (r: Option<seq<int>>)
      requires Valid() && visited == {} && ClosedFrom(edges, start)
      modifies this`visited
      ensures Valid() && visited == {}
      ensures r.None? <==> start !in vertices
      ensures r.Some? ==> |r.value| > 0 && r.value[0] == start && Distinct(r.value)
      ensures r.Some? ==> forall x :: x in r.value <==> Reachable(edges, start, x)
      ensures r.Some? ==> DiscoveryOrder(edges, r.value)
    {
      var found := FindVertex(start);
      if found.None? {
        return None;
      }
      DfsInit(edges, start);
      ghost var all := set v | v in vertices;
      var stack := [start];
      var order := [];
      while stack != []
        invariant visited <= all
        invariant DfsInvariant(edges, start, order, visited, stack)
        decreases all - visited, |stack|
      {
        var w := stack[|stack| - 1];
        var rest := stack[..|stack| - 1];
        assert stack == rest + [w];
        stack := rest;
        if w in visited {
          DfsSkip(edges, start, order, visited, rest, w);
        } else {
          DfsVisit(edges, start, order, visited, rest, w);
          assert w in all;
          order := order + [w];
          visited := visited + {w};
          stack := PushUnvisited(edges[w], rest);
        }
      }
      DfsDone(edges, start, order, visited);
      ResetVisited();
      return Some(order);
    }
  }
}
