/**
  The undirected graph of grafo.c: vertices 1..numVertices, one neighbour
  list per vertex. Each C linked list is a `seq<int>` whose head is the
  list head; slot 0 of the array is allocated but never used.
*/
module Graphs {

  /** MAX_VERTICES: the largest graph `createGraph` accepts, and the queue capacity. */
  const MaxVertices: int := 100

  /** `v` is on the neighbour list of `u`. */
  predicate Edge(adj: seq<seq<int>>, u: int, v: int) {
    0 <= u < |adj| && v in adj[u]
  }

  /** Every neighbour list of a vertex 1..n names only vertices 1..n. */
  ghost predicate WellFormed(adj: seq<seq<int>>, n: int) {
    |adj| == n + 1 &&
    forall u, k :: 1 <= u <= n && 0 <= k < |adj[u]| ==> 1 <= adj[u][k] <= n
  }

  /** `v` occurs on `u`'s list exactly as often as `u` occurs on `v`'s. */
  ghost predicate Symmetric(adj: seq<seq<int>>, n: int)
    requires |adj| == n + 1
  {
    forall u, v :: 1 <= u <= n && 1 <= v <= n ==> multiset(adj[u])[v] == multiset(adj[v])[u]
  }

  /** `p` is a walk from `s` to `t` that follows neighbour lists. */
  ghost predicate Walk(adj: seq<seq<int>>, p: seq<int>, s: int, t: int) {
    |p| >= 1 && p[0] == s && p[|p| - 1] == t &&
    forall k :: 0 <= k < |p| - 1 ==> Edge(adj, p[k], p[k + 1])
  }

  ghost predicate Reachable(adj: seq<seq<int>>, s: int, t: int) {
    exists p :: Walk(adj, p, s, t)
  }

  /**
    The lists after `addEdge(src, dest)`: `dest` is pushed on the front of
    `src`'s list, then `src` on the front of `dest`'s list as it is by then.
  */
  function Link(adj: seq<seq<int>>, src: int, dest: int): (r: seq<seq<int>>)
    requires 0 <= src < |adj| && 0 <= dest < |adj|
    ensures |r| == |adj|
    ensures forall w :: 0 <= w < |adj| && w != src && w != dest ==> r[w] == adj[w]
    ensures src != dest ==> r[src] == [dest] + adj[src] && r[dest] == [src] + adj[dest]
    ensures src == dest ==> r[src] == [src, src] + adj[src]
  {
    var a := adj[src := [dest] + adj[src]];
    a[dest := [src] + a[dest]]
  }

  /** Linking adds one `dest` to `src`'s list and one `src` to `dest`'s list, and nothing else. */
  lemma LinkCount(adj: seq<seq<int>>, src: int, dest: int, u: int, v: int)
    requires 0 <= src < |adj| && 0 <= dest < |adj| && 0 <= u < |adj|
    ensures multiset(Link(adj, src, dest)[u])[v] ==
            multiset(adj[u])[v] + (if u == src && v == dest then 1 else 0)
                                + (if u == dest && v == src then 1 else 0)
  {
    var r := Link(adj, src, dest);
    if u == src && u == dest {
      assert r[u] == [src] + ([dest] + adj[u]);
    } else if u == src {
      assert r[u] == [dest] + adj[u];
    } else if u == dest {
      assert r[u] == [src] + adj[u];
    }
  }

  /** `addEdge` keeps every list inside 1..n and keeps the lists symmetric. */
  lemma LinkKeepsInvariant(adj: seq<seq<int>>, n: int, src: int, dest: int)
    requires WellFormed(adj, n) && Symmetric(adj, n)
    requires 1 <= src <= n && 1 <= dest <= n
    ensures WellFormed(Link(adj, src, dest), n) && Symmetric(Link(adj, src, dest), n)
  {
    var r := Link(adj, src, dest);
    forall u, v | 1 <= u <= n && 1 <= v <= n
      ensures multiset(r[u])[v] == multiset(r[v])[u]
    {
      LinkCount(adj, src, dest, u, v);
      LinkCount(adj, src, dest, v, u);
    }
    forall u, k | 1 <= u <= n && 0 <= k < |r[u]|
      ensures 1 <= r[u][k] <= n
    {
      if u == src || u == dest {
        assert r[u][k] in r[u];
        assert r[u][k] in [src, dest] + adj[u] by {
          LinkCount(adj, src, dest, u, r[u][k]);
        }
        if r[u][k] in adj[u] {
          var i :| 0 <= i < |adj[u]| && adj[u][i] == r[u][k];
        }
      }
    }
  }

  class Graph {
    var numVertices: int
    var adjLists: array<seq<int>>

    ghost predicate Valid()
      reads this, adjLists
    {
      1 <= numVertices <= MaxVertices &&
      adjLists.Length == numVertices + 1 &&
      WellFormed(adjLists[..], numVertices) &&
      Symmetric(adjLists[..], numVertices)
    }

    /** The neighbour lists as a value. */
    ghost function Adj(): seq<seq<int>>
      reads this, adjLists
    {
      adjLists[..]
    }

    /** The graph part of `createGraph`, once the size is known to be valid. */
    constructor (vertices: int)
      requires 1 <= vertices <= MaxVertices
      ensures Valid() && fresh(adjLists)
      ensures numVertices == vertices
      ensures forall u :: 1 <= u <= vertices ==> adjLists[u] == []
    {
      var lists := new seq<int>[vertices + 1];
      for i := 1 to vertices + 1
        invariant forall u :: 1 <= u < i ==> lists[u] == []
      {
        lists[i] := [];
      }
      numVertices := vertices;
      adjLists := lists;
    }

    /**
      `addEdge`: an edge with an endpoint outside 1..numVertices is skipped
      (`ok` is false: the warning case); otherwise both lists get a new head.
    */
    method AddEdge(src: int, dest: int) returns (ok: bool)
      requires Valid()
      modifies adjLists
      ensures Valid()
      ensures ok <==> 1 <= src <= numVertices && 1 <= dest <= numVertices
      ensures !ok ==> adjLists[..] == old(adjLists[..])
      ensures ok ==> adjLists[..] == Link(old(adjLists[..]), src, dest)
    {
      if src < 1 || src > numVertices || dest < 1 || dest > numVertices {
        return false;
      }
      ghost var before := adjLists[..];
      adjLists[src] := [dest] + adjLists[src];
      adjLists[dest] := [src] + adjLists[dest];
      assert adjLists[..] == Link(before, src, dest);
      LinkKeepsInvariant(before, numVertices, src, dest);
      return true;
    }
  }

  /** `createGraph`: null exactly when the size is outside 1..MaxVertices. */
  method CreateGraph(vertices: int) returns (g: Graph?)
    ensures g == null <==> vertices <= 0 || vertices > MaxVertices
    ensures g != null ==> fresh(g) && fresh(g.adjLists) && g.Valid() && g.numVertices == vertices
    ensures g != null ==> forall u :: 1 <= u <= vertices ==> g.adjLists[u] == []
  {
    if vertices <= 0 || vertices > MaxVertices {
      return null;
    }
    g := new Graph(vertices);
  }
}
