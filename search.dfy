/**
  `bfs` of grafo.c: breadth-first search from `start`, recording for each
  newly reached vertex the vertex it was reached from, then walking those
  parent links back from `end`. The printed path becomes the returned
  `Some(path)`; "no path found" becomes `None`.

  The proof keeps a ghost map `depth` whose keys are the visited vertices
  and whose values are their distance in parent links from `start`.
*/
module Search {
  import opened Wrappers
  import opened Graphs
  import opened Queues

  /** Every walk from `start` to a visited vertex has more vertices than that vertex's depth. */
  ghost predicate Minimal(adj: seq<seq<int>>, start: int, depth: map<int, nat>) {
    forall v, p :: v in depth && Walk(adj, p, start, v) ==> depth[v] < |p|
  }

  /** Every visited vertex outside `open` has all its neighbours visited. */
  ghost predicate Closed(adj: seq<seq<int>>, depth: map<int, nat>, open: seq<int>) {
    forall u, x :: u in depth && u !in open && Edge(adj, u, x) ==> x in depth
  }

  /** The queue holds visited vertices of depth `d` or `d + 1`, in non-decreasing depth. */
  ghost predicate Layered(depth: map<int, nat>, q: seq<int>, d: int) {
    (forall i :: 0 <= i < |q| ==> q[i] in depth && d <= depth[q[i]] <= d + 1) &&
    (forall i, j :: 0 <= i <= j < |q| ==> depth[q[i]] <= depth[q[j]])
  }

  /**
    The parent links form a tree rooted at `start` over the visited
    vertices: each non-root vertex is on its parent's list, one level deeper;
    every unvisited vertex still has parent -1.
  */
  ghost predicate Tree(adj: seq<seq<int>>, n: int, start: int, parent: seq<int>, depth: map<int, nat>) {
    |parent| == n + 1 && 1 <= start <= n &&
    (forall v :: v in depth ==> 1 <= v <= n && depth[v] < |depth|) &&
    start in depth && depth[start] == 0 && parent[start] == -1 &&
    (forall v :: 1 <= v <= n && v !in depth ==> parent[v] == -1) &&
    (forall v {:trigger parent[v]} :: v in depth && v != start ==>
       parent[v] in depth && Edge(adj, parent[v], v) && depth[v] == depth[parent[v]] + 1)
  }

  /** A set of vertices 1..n has at most n members. */
  lemma {:induction false} VertexSetBound(s: set<int>, n: int)
    requires n >= 0 && forall x :: x in s ==> 1 <= x <= n
    ensures |s| <= n
    decreases n
  {
    if n == 0 {
      assert forall x :: x !in s;
      assert s == {};
    } else {
      var t := s - {n};
      VertexSetBound(t, n - 1);
      assert s <= t + {n};
    }
  }

  /** A walk that starts inside `s` and ends outside it leaves `s` at some step. */
  lemma {:induction false} FirstExit(p: seq<int>, s: map<int, nat>) returns (j: int)
    requires |p| > 0 && p[0] in s && p[|p| - 1] !in s
    ensures 1 <= j < |p| && p[j - 1] in s && p[j] !in s
    decreases |p|
  {
    if p[1] !in s {
      j := 1;
    } else {
      var k := FirstExit(p[1..], s);
      j := k + 1;
    }
  }

  /** Every prefix of a walk is a walk to its last vertex. */
  lemma WalkPrefix(adj: seq<seq<int>>, p: seq<int>, s: int, t: int, j: int)
    requires Walk(adj, p, s, t) && 1 <= j <= |p|
    ensures Walk(adj, p[..j], s, p[j - 1])
  {
    forall k | 0 <= k < j - 1
      ensures Edge(adj, p[..j][k], p[..j][k + 1])
    {
      assert Edge(adj, p[k], p[k + 1]);
    }
  }

  /**
    When the queue has drained and no vertex is left open, no walk from
    `start` leaves the visited set.
  */
  lemma WalkStaysVisited(adj: seq<seq<int>>, depth: map<int, nat>, p: seq<int>, s: int, t: int)
    requires Closed(adj, depth, []) && s in depth && Walk(adj, p, s, t)
    ensures t in depth
  {
    if t !in depth {
      var j := FirstExit(p, depth);
      assert false;
    }
  }

  /**
    The BFS step: a vertex `w` not yet visited, found while expanding
    `current`, has no walk from `start` with `depth[current] + 1` vertices or fewer.
  */
  lemma NewVertexIsFar(adj: seq<seq<int>>, start: int, depth: map<int, nat>,
                       q: seq<int>, current: int, w: int)
    requires start in depth && current in depth && w !in depth
    requires Minimal(adj, start, depth)
    requires Closed(adj, depth, [current] + q)
    requires Layered(depth, q, depth[current])
    ensures forall p :: Walk(adj, p, start, w) ==> depth[current] + 1 < |p|
  {
    forall p | Walk(adj, p, start, w)
      ensures depth[current] + 1 < |p|
    {
      var j := FirstExit(p, depth);
      var u := p[j - 1];
      assert Edge(adj, u, p[j]);
      assert u in [current] + q;
      if u != current {
        var m :| 0 <= m < |q| && q[m] == u;
      }
      assert depth[current] <= depth[u];
      WalkPrefix(adj, p, start, w, j);
    }
  }

  /** The depth of the new queue head bounds the queue from below again. */
  lemma LayeredAtHead(depth: map<int, nat>, q: seq<int>, d: int)
    requires Layered(depth, q, d) && |q| > 0
    ensures Layered(depth, q, depth[q[0]])
  {
  }

  /**
    What holds of the search state at every step: the parent tree, the
    visited flags matching its vertices, the queue holding visited vertices
    only, at most one enqueue per visited vertex (so the queue's last slot is
    never reached), and once `end` is found, its depth is final and minimal.
  */
  ghost predicate Common(adj: seq<seq<int>>, n: int, start: int, end: int,
                         visited: seq<bool>, parent: seq<int>, queue: seq<int>, rear: int,
                         depth: map<int, nat>, found: bool)
  {
    WellFormed(adj, n) && 1 <= end <= n && n <= MaxVertices &&
    Tree(adj, n, start, parent, depth) &&
    |visited| == n + 1 && (forall v :: 1 <= v <= n ==> (visited[v] <==> v in depth)) &&
    (forall i :: 0 <= i < |queue| ==> queue[i] in depth) &&
    rear + 1 <= |depth| <= n &&
    (found ==> end in depth && forall p :: Walk(adj, p, start, end) ==> depth[end] < |p|)
  }

  /** The breadth-first invariant between two dequeues, while `end` is not yet found. */
  ghost predicate Between(adj: seq<seq<int>>, start: int, queue: seq<int>, depth: map<int, nat>) {
    Minimal(adj, start, depth) && Closed(adj, depth, queue) &&
    (queue != [] ==> queue[0] in depth && Layered(depth, queue, depth[queue[0]]))
  }

  /**
    The breadth-first invariant while the neighbours of `current` are being
    scanned: the first `done` of them are visited.
  */
  ghost predicate Scanning(adj: seq<seq<int>>, start: int, queue: seq<int>, depth: map<int, nat>,
                           current: int, done: int)
    requires 0 <= current < |adj|
  {
    current in depth && 0 <= done <= |adj[current]| &&
    Minimal(adj, start, depth) && Closed(adj, depth, [current] + queue) &&
    Layered(depth, queue, depth[current]) &&
    forall k :: 0 <= k < done ==> adj[current][k] in depth
  }

  /**
    Dequeuing the head of the queue keeps the common invariant and, before
    `end` is found, starts the scan of the head's neighbours.
  */
  lemma StartScan(adj: seq<seq<int>>, n: int, start: int, end: int,
                  visited: seq<bool>, parent: seq<int>, queue: seq<int>, rear: int, rear': int,
                  depth: map<int, nat>, found: bool)
    requires Common(adj, n, start, end, visited, parent, queue, rear, depth, found)
    requires !found ==> Between(adj, start, queue, depth)
    requires queue != [] && rear' <= rear
    ensures queue[0] in depth
    ensures Common(adj, n, start, end, visited, parent, queue[1..], rear', depth, found)
    ensures !found ==> Scanning(adj, start, queue[1..], depth, queue[0], 0)
  {
    assert queue[0] in depth;
    assert [queue[0]] + queue[1..] == queue;
  }

  /** A scan that reached the end of the list leaves `current` closed. */
  lemma FinishScan(adj: seq<seq<int>>, start: int, queue: seq<int>, depth: map<int, nat>, current: int)
    requires 0 <= current < |adj|
    requires Scanning(adj, start, queue, depth, current, |adj[current]|)
    ensures Between(adj, start, queue, depth)
  {
    forall u, x | u in depth && u !in queue && Edge(adj, u, x)
      ensures x in depth
    {
      if u == current {
        var k :| 0 <= k < |adj[current]| && adj[current][k] == x;
      }
    }
    if queue != [] {
      LayeredAtHead(depth, queue, depth[current]);
    }
  }

  /** The parent tree grows by `w`, hung below `current`. */
  lemma TreeGrows(adj: seq<seq<int>>, n: int, start: int, parent: seq<int>, depth: map<int, nat>,
                  current: int, w: int)
    requires Tree(adj, n, start, parent, depth)
    requires current in depth && 1 <= w <= n && w !in depth && Edge(adj, current, w)
    ensures Tree(adj, n, start, parent[w := current], depth[w := depth[current] + 1])
    ensures |depth[w := depth[current] + 1]| == |depth| + 1 <= n
  {
    var depth' := depth[w := depth[current] + 1];
    assert depth'.Keys == depth.Keys + {w};
    VertexSetBound(depth'.Keys, n);
  }

  /** The scan invariant survives the visit of `w` at depth `depth[current] + 1`. */
  lemma ScanGrows(adj: seq<seq<int>>, start: int, queue: seq<int>, depth: map<int, nat>,
                  current: int, done: int)
    requires 0 <= current < |adj| && 0 <= done < |adj[current]|
    requires start in depth && Scanning(adj, start, queue, depth, current, done)
    requires adj[current][done] !in depth
    ensures var w := adj[current][done];
            Scanning(adj, start, queue + [w], depth[w := depth[current] + 1], current, done + 1)
  {
    var w := adj[current][done];
    var depth' := depth[w := depth[current] + 1];
    NewVertexIsFar(adj, start, depth, queue, current, w);
    assert Minimal(adj, start, depth');
    assert Closed(adj, depth', [current] + (queue + [w]));
    assert Layered(depth', queue + [w], depth'[current]);
  }

  /**
    Visiting the unvisited neighbour `w` of `current`: flag it, record
    `current` as its parent, give it depth `depth[current] + 1` and enqueue
    it. The queue has room for it, and every invariant carries over.
  */
  lemma Discover(adj: seq<seq<int>>, n: int, start: int, end: int,
                 visited: seq<bool>, parent: seq<int>, queue: seq<int>, rear: int,
                 depth: map<int, nat>, found: bool, current: int, done: int)
    requires Common(adj, n, start, end, visited, parent, queue, rear, depth, found)
    requires current in depth && 0 <= done < |adj[current]|
    requires !found ==> Scanning(adj, start, queue, depth, current, done)
    requires !visited[adj[current][done]]
    ensures rear < MaxVertices - 1
    ensures var w := adj[current][done];
            var depth' := depth[w := depth[current] + 1];
            Common(adj, n, start, end, visited[w := true], parent[w := current], queue + [w],
                   rear + 1, depth', found || w == end) &&
            (!found ==> Scanning(adj, start, queue + [w], depth', current, done + 1))
  {
    var w := adj[current][done];
    assert 1 <= w <= n && w !in depth;
    var depth' := depth[w := depth[current] + 1];
    TreeGrows(adj, n, start, parent, depth, current, w);
    if !found {
      ScanGrows(adj, start, queue, depth, current, done);
      NewVertexIsFar(adj, start, depth, queue, current, w);
    }
  }

  /**
    When the queue has drained, a parent of -1 for `end` means that `end` is
    `start` or cannot be reached; any other parent means that `end` was
    visited at a depth no walk from `start` undercuts.
  */
  lemma Conclude(adj: seq<seq<int>>, n: int, start: int, end: int,
                 visited: seq<bool>, parent: seq<int>, rear: int,
                 depth: map<int, nat>, found: bool)
    requires Common(adj, n, start, end, visited, parent, [], rear, depth, found)
    requires !found ==> Between(adj, start, [], depth)
    ensures parent[end] == -1 ==> start == end || !Reachable(adj, start, end)
    ensures parent[end] != -1 ==>
              start != end && end in depth && forall p :: Walk(adj, p, start, end) ==> depth[end] < |p|
  {
    if parent[end] == -1 && start != end {
      assert end !in depth;
      forall p | Walk(adj, p, start, end)
        ensures false
      {
        WalkStaysVisited(adj, depth, p, start, end);
      }
    }
    if parent[end] != -1 && !found {
      assert end in depth;
      assert Minimal(adj, start, depth);
    }
  }

  /**
    `bfs(graph, start, end)`. The result is `None` exactly when `end` is
    `start` itself (the start vertex is visited with parent -1 before the
    search) or cannot be reached from `start`; otherwise it is a walk from
    `start` to `end` with no more vertices than any other such walk.
  */
  method Bfs(g: Graph, start: int, end: int) returns (r: Option<seq<int>>)
    requires g.Valid()
    requires 1 <= start <= g.numVertices && 1 <= end <= g.numVertices
    ensures r.None? <==> start == end || !Reachable(g.Adj(), start, end)
    ensures r.Some? ==> Walk(g.Adj(), r.value, start, end) && |r.value| <= g.numVertices
    ensures r.Some? ==> forall p :: Walk(g.Adj(), p, start, end) ==> |r.value| <= |p|
  {
    var n := g.numVertices;
    ghost var adj := g.Adj();
    var visited: array<bool>, parent: array<int>, q: Queue;
    ghost var depth: map<int, nat>, found: bool;
    visited, parent, q, depth := Prepare(n, start, end, adj);
    // `found` is set once `end` has been reached: from then on only its depth matters.
    depth, found := Explore(g, end, visited, parent, q, adj, n, start, depth, false);

    Conclude(adj, n, start, end, visited[..], parent[..], q.rear, depth, found);
    if parent[end] == -1 {
      r := None;
    } else {
      var route := TracePath(parent, end, adj, n, start, depth);
      r := Some(route);
    }
  }

  /**
    The set-up of `bfs`: no vertex visited and every parent -1, then `start`
    marked visited and enqueued.
  */
  method Prepare(n: int, start: int, end: int, ghost adj: seq<seq<int>>)
    returns (visited: array<bool>, parent: array<int>, q: Queue, ghost depth: map<int, nat>)
    requires WellFormed(adj, n) && n <= MaxVertices
    requires 1 <= start <= n && 1 <= end <= n
    ensures fresh(visited) && fresh(parent) && fresh(q) && fresh(q.items)
    ensures q.Valid() && q.items != parent
    ensures Common(adj, n, start, end, visited[..], parent[..], q.Contents(), q.rear, depth, false)
    ensures Between(adj, start, q.Contents(), depth)
    ensures q.Contents() == [start] && depth == map[start := 0]
  {
    visited := new bool[n + 1];
    parent := new int[n + 1];
    q := new Queue();

    for i := 1 to n + 1
      modifies visited, parent
      invariant forall v :: 1 <= v < i ==> !visited[v] && parent[v] == -1
    {
      visited[i] := false;
      parent[i] := -1;
    }

    visited[start] := true;
    q.Enqueue(start);
    depth := map[start := 0];
  }

  /**
    The main loop of `bfs`: dequeue a vertex and scan its neighbours until
    the queue is empty; finding `end` only cuts short the current neighbour
    scan.
  */
  method Explore(g: Graph, end: int, visited: array<bool>, parent: array<int>, q: Queue,
                 ghost adj: seq<seq<int>>, ghost n: int, ghost start: int,
                 ghost depth0: map<int, nat>, ghost found0: bool)
    returns (ghost depth: map<int, nat>, ghost found: bool)
    requires g.Valid() && adj == g.Adj() && n == g.numVertices
    requires q.Valid() && q.items != parent
    requires Common(adj, n, start, end, visited[..], parent[..], q.Contents(), q.rear, depth0, found0)
    requires !found0 ==> Between(adj, start, q.Contents(), depth0)
    modifies visited, parent, q, q.items
    ensures q.Valid() && q.Contents() == []
    ensures Common(adj, n, start, end, visited[..], parent[..], [], q.rear, depth, found)
    ensures !found ==> Between(adj, start, [], depth)
  {
    depth, found := depth0, found0;
    while !q.IsEmpty()
      invariant q.Valid() && q.items == old(q.items)
      invariant Common(adj, n, start, end, visited[..], parent[..], q.Contents(), q.rear, depth, found)
      invariant !found ==> Between(adj, start, q.Contents(), depth)
      decreases n - |depth|, |q.Contents()|
    {
      ghost var queue0, rear0 := q.Contents(), q.rear;
      var current := q.Dequeue();
      StartScan(adj, n, start, end, visited[..], parent[..], queue0, rear0, q.rear, depth, found);
      var temp := g.adjLists[current];
      ghost var stop, added;
      depth, found, stop, added := ScanNeighbours(temp, current, end, visited, parent, q, adj, n, start, depth, found);
    }
  }

  /**
    What a scan of `current`'s list has changed so far: every `scanned`
    neighbour is visited, vertices visited before keep their depth and
    parent, and each newly visited vertex is one of the `scanned`
    neighbours, hung below `current` one level deeper.
  */
  ghost predicate Grown(depth0: map<int, nat>, parent0: seq<int>, depth: map<int, nat>,
                        parent: seq<int>, current: int, scanned: seq<int>) {
    |parent| == |parent0| && current in depth0 &&
    (forall x :: x in scanned ==> x in depth) &&
    (forall v :: v in depth0 ==> v in depth && depth[v] == depth0[v]) &&
    (forall v :: v in depth0 && 0 <= v < |parent| ==> parent[v] == parent0[v]) &&
    (forall v :: v in depth && v !in depth0 ==>
       v in scanned && 0 <= v < |parent| && parent[v] == current && depth[v] == depth0[current] + 1)
  }

  /** Visiting the next neighbour `w` extends what the scan has changed by `w` alone. */
  lemma GrownStep(depth0: map<int, nat>, parent0: seq<int>, depth: map<int, nat>,
                  parent: seq<int>, current: int, scanned: seq<int>, w: int)
    requires Grown(depth0, parent0, depth, parent, current, scanned)
    requires w !in depth && 0 <= w < |parent|
    ensures Grown(depth0, parent0, depth[w := depth[current] + 1], parent[w := current],
                  current, scanned + [w])
  {
  }

  /** Passing over a neighbour that is already visited changes nothing. */
  lemma GrownSkip(depth0: map<int, nat>, parent0: seq<int>, depth: map<int, nat>,
                  parent: seq<int>, current: int, scanned: seq<int>, x: int)
    requires Grown(depth0, parent0, depth, parent, current, scanned) && x in depth
    ensures Grown(depth0, parent0, depth, parent, current, scanned + [x])
  {
  }

  /**
    The invariant of the scan of `current`'s list after its first `done`
    neighbours: the queue is the queue before the scan followed by the
    newly visited vertices `added`, in the order they were visited, and
    `end`, once newly visited, is the last scanned neighbour and its first
    occurrence in the list.
  */
  ghost predicate ScanInv(adj: seq<seq<int>>, n: int, start: int, end: int,
                          visited: seq<bool>, parent: seq<int>, queue: seq<int>, rear: int,
                          depth: map<int, nat>, found: bool, current: int, done: int,
                          depth0: map<int, nat>, parent0: seq<int>, found0: bool,
                          queue0: seq<int>, added: seq<int>)
    requires 0 <= current < |adj|
  {
    Common(adj, n, start, end, visited, parent, queue, rear, depth, found) &&
    0 <= done <= |adj[current]| &&
    (!found ==> Scanning(adj, start, queue, depth, current, done)) &&
    queue == queue0 + added && |added| == |depth| - |depth0| &&
    added == FirstNew(adj[current][..done], depth0.Keys) &&
    (forall x :: x in added <==> x in depth && x !in depth0) &&
    found == (found0 || (end in depth && end !in depth0)) &&
    (end in depth && end !in depth0 ==>
       0 < done && adj[current][done - 1] == end && end !in adj[current][..done - 1]) &&
    Grown(depth0, parent0, depth, parent, current, adj[current][..done])
  }

  /**
    The vertices of the list `s` that are not in `seen`, each at its first
    occurrence, in list order: what a scan of `s` enqueues when `seen` is
    the set of vertices visited before it.
  */
  ghost function FirstNew(s: seq<int>, seen: set<int>): seq<int>
  {
    if s == [] then []
    else if s[|s| - 1] in seen || s[|s| - 1] in s[..|s| - 1] then FirstNew(s[..|s| - 1], seen)
    else FirstNew(s[..|s| - 1], seen) + [s[|s| - 1]]
  }

  /** `FirstNew` holds every new vertex of `s` exactly once. */
  lemma {:induction false} FirstNewElements(s: seq<int>, seen: set<int>)
    ensures forall x :: x in FirstNew(s, seen) <==> x in s && x !in seen
    ensures forall i, j :: 0 <= i < j < |FirstNew(s, seen)| ==> FirstNew(s, seen)[i] != FirstNew(s, seen)[j]
  {
    if s != [] {
      var init := s[..|s| - 1];
      assert s == init + [s[|s| - 1]];
      FirstNewElements(init, seen);
    }
  }

  /**
    Scanning the neighbour `s[i]` extends `FirstNew` by it exactly when it
    is not yet visited.
  */
  lemma FirstNewStep(s: seq<int>, i: int, depth0: map<int, nat>, parent0: seq<int>,
                     depth: map<int, nat>, parent: seq<int>, current: int)
    requires 0 <= i < |s| && Grown(depth0, parent0, depth, parent, current, s[..i])
    ensures FirstNew(s[..i + 1], depth0.Keys) ==
            FirstNew(s[..i], depth0.Keys) + (if s[i] in depth then [] else [s[i]])
  {
    var t := s[..i + 1];
    assert t[..|t| - 1] == s[..i] && t[|t| - 1] == s[i];
    assert s[i] in depth <==> s[i] in depth0 || s[i] in s[..i];
  }

  /** A value missing from the prefix `s[..i]` is at none of its positions. */
  lemma AbsentFromPrefix(s: seq<int>, i: int, x: int)
    requires 0 <= i <= |s| && x !in s[..i]
    ensures forall k :: 0 <= k < i ==> s[k] != x
  {
    forall k | 0 <= k < i
      ensures s[k] != x
    {
      assert s[..i][k] == s[k];
    }
  }

  /** A prefix one longer is the prefix with the next element appended. */
  lemma PrefixGrows(s: seq<int>, i: int)
    requires 0 <= i < |s|
    ensures s[..i + 1] == s[..i] + [s[i]]
  {
  }

  /**
    The body of the neighbour scan in `bfs` for a neighbour `w` not yet
    visited: mark it, record `current` as its parent and enqueue it.
  */
  method Visit(w: int, current: int, end: int,
               visited: array<bool>, parent: array<int>, q: Queue,
               ghost adj: seq<seq<int>>, ghost n: int, ghost start: int,
               ghost depth0: map<int, nat>, ghost found0: bool, ghost done: int)
    returns (ghost depth: map<int, nat>, ghost found: bool)
    requires q.Valid() && q.items != parent
    requires Common(adj, n, start, end, visited[..], parent[..], q.Contents(), q.rear, depth0, found0)
    requires current in depth0 && 0 <= done < |adj[current]| && w == adj[current][done]
    requires !found0 ==> Scanning(adj, start, q.Contents(), depth0, current, done)
    requires !visited[w]
    modifies visited, parent, q, q.items
    ensures q.Valid() && q.items == old(q.items)
    ensures depth == depth0[w := depth0[current] + 1] && found == (found0 || w == end)
    ensures Common(adj, n, start, end, visited[..], parent[..], q.Contents(), q.rear, depth, found)
    ensures !found0 ==> Scanning(adj, start, q.Contents(), depth, current, done + 1)
    ensures visited[..] == old(visited[..])[w := true] && parent[..] == old(parent[..])[w := current]
    ensures q.Contents() == old(q.Contents()) + [w] && |depth| == |depth0| + 1
  {
    ghost var visited0, parent0, queue0, rear0 := visited[..], parent[..], q.Contents(), q.rear;
    Discover(adj, n, start, end, visited0, parent0, queue0, rear0, depth0, found0, current, done);
    visited[w] := true;
    assert visited[..] == visited0[w := true];
    parent[w] := current;
    assert parent[..] == parent0[w := current];
    depth := depth0[w := depth0[current] + 1];
    assert q.Contents() == queue0 && q.rear == rear0;
    q.Enqueue(w);
    found := found0 || w == end;
  }

  /**
    The inner loop of `bfs`: walk the neighbour list of `current`, visiting
    and enqueuing each neighbour not yet visited, and stop early right after
    visiting `end`.
  */
  method ScanNeighbours(neighbours: seq<int>, current: int, end: int,
                        visited: array<bool>, parent: array<int>, q: Queue,
                        ghost adj: seq<seq<int>>, ghost n: int, ghost start: int,
                        ghost depth0: map<int, nat>, ghost found0: bool)
    returns (ghost depth: map<int, nat>, ghost found: bool, ghost stop: int, ghost added: seq<int>)
    requires 0 <= current < |adj| && neighbours == adj[current]
    requires q.Valid() && q.items != parent
    requires Common(adj, n, start, end, visited[..], parent[..], q.Contents(), q.rear, depth0, found0)
    requires current in depth0
    requires !found0 ==> Scanning(adj, start, q.Contents(), depth0, current, 0)
    modifies visited, parent, q, q.items
    ensures q.Valid() && q.items == old(q.items)
    ensures Common(adj, n, start, end, visited[..], parent[..], q.Contents(), q.rear, depth, found)
    ensures !found ==> Between(adj, start, q.Contents(), depth)
    ensures |depth| >= |depth0| && |q.Contents()| - |depth| == old(|q.Contents()|) - |depth0|
    // The newly visited vertices `added` are appended to the queue.
    ensures q.Contents() == old(q.Contents()) + added
    ensures forall x :: x in added <==> x in depth && x !in depth0
    // The scan covers `neighbours[..stop]`, and it stops early only right after enqueuing `end`.
    ensures 0 <= stop <= |neighbours|
    ensures added == FirstNew(neighbours[..stop], depth0.Keys)
    ensures end !in depth0 ==> forall k :: 0 <= k < stop - 1 ==> neighbours[k] != end
    ensures stop < |neighbours| ==> stop > 0 && neighbours[stop - 1] == end && end !in depth0
    ensures end in depth && end !in depth0 ==> stop > 0 && neighbours[stop - 1] == end
    ensures found == (found0 || (end in depth && end !in depth0))
    // Vertices visited before keep their depth and parent; new ones hang below `current`.
    ensures Grown(depth0, old(parent[..]), depth, parent[..], current, neighbours[..stop])
  {
    depth, found := depth0, found0;
    ghost var parent0 := parent[..];
    ghost var queue0 := q.Contents();
    added := [];
    var temp := neighbours;
    ghost var done := 0;
    while temp != []
      invariant q.Valid() && q.items == old(q.items)
      invariant 0 <= done <= |neighbours| && temp == neighbours[done..]
      invariant ScanInv(adj, n, start, end, visited[..], parent[..], q.Contents(), q.rear,
                        depth, found, current, done, depth0, parent0, found0, queue0, added)
      invariant end in depth ==> end in depth0
      decreases |temp|
    {
      var adjVertex := temp[0];
      var stopHere;
      depth, found, added, stopHere := ScanOne(adjVertex, current, end, visited, parent, q,
                                               adj, n, start, depth, found, done,
                                               depth0, parent0, found0, queue0, added);
      if stopHere {
        stop := done + 1;
        AbsentFromPrefix(neighbours, done, end);
        return;
      }
      temp := temp[1..];
      done := done + 1;
    }
    stop := done;
    assert end !in depth0 ==> end !in depth;
    if end !in depth0 {
      AbsentFromPrefix(neighbours, stop, end);
    }
    if !found {
      FinishScan(adj, start, q.Contents(), depth, current);
    }
  }

  /**
    One pass of the inner loop of `bfs` over the neighbour `w` at position
    `done` of `current`'s list: an unvisited `w` is visited, and the scan
    stops right after that when `w` is `end`.
  */
  method ScanOne(w: int, current: int, end: int,
                 visited: array<bool>, parent: array<int>, q: Queue,
                 ghost adj: seq<seq<int>>, ghost n: int, ghost start: int,
                 ghost depth: map<int, nat>, ghost found: bool, ghost done: int,
                 ghost depth0: map<int, nat>, ghost parent0: seq<int>, ghost found0: bool,
                 ghost queue0: seq<int>, ghost added: seq<int>)
    returns (ghost depth': map<int, nat>, ghost found': bool, ghost added': seq<int>, stop: bool)
    requires 0 <= current < |adj| && 0 <= done < |adj[current]| && w == adj[current][done]
    requires q.Valid() && q.items != parent
    requires ScanInv(adj, n, start, end, visited[..], parent[..], q.Contents(), q.rear,
                     depth, found, current, done, depth0, parent0, found0, queue0, added)
    requires end in depth ==> end in depth0
    modifies visited, parent, q, q.items
    ensures q.Valid() && q.items == old(q.items)
    ensures stop <==> !old(visited[w]) && w == end
    ensures added' == added + (if old(visited[w]) then [] else [w])
    ensures q.Contents() == old(q.Contents()) + (if old(visited[w]) then [] else [w])
    ensures ScanInv(adj, n, start, end, visited[..], parent[..], q.Contents(), q.rear,
                    depth', found', current, done + 1, depth0, parent0, found0, queue0, added')
    ensures !stop ==> (end in depth' ==> end in depth0)
  {
    ghost var visited1, parent1, queue1, rear1 := visited[..], parent[..], q.Contents(), q.rear;
    assert visited[w] <==> w in depth;
    if !visited[w] {
      depth', found' := Visit(w, current, end, visited, parent, q, adj, n, start, depth, found, done);
      added' := added + [w];
      ScanVisited(adj, n, start, end, visited1, parent1, queue1, rear1, depth, found, current, done,
                  depth0, parent0, found0, queue0, added,
                  visited[..], parent[..], q.Contents(), q.rear, depth', found');
      stop := w == end;
    } else {
      depth', found', added' := depth, found, added;
      ScanSkipped(adj, n, start, end, visited1, parent1, queue1, rear1, depth, found, current, done,
                  depth0, parent0, found0, queue0, added);
      stop := false;
    }
  }

  /** Visiting the unvisited neighbour at position `done` carries `ScanInv` one position further. */
  lemma ScanVisited(adj: seq<seq<int>>, n: int, start: int, end: int,
                    visited: seq<bool>, parent: seq<int>, queue: seq<int>, rear: int,
                    depth: map<int, nat>, found: bool, current: int, done: int,
                    depth0: map<int, nat>, parent0: seq<int>, found0: bool,
                    queue0: seq<int>, added: seq<int>,
                    visited': seq<bool>, parent': seq<int>, queue': seq<int>, rear': int,
                    depth': map<int, nat>, found': bool)
    requires 0 <= current < |adj| && 0 <= done < |adj[current]|
    requires ScanInv(adj, n, start, end, visited, parent, queue, rear,
                     depth, found, current, done, depth0, parent0, found0, queue0, added)
    requires end in depth ==> end in depth0
    requires adj[current][done] !in depth && 0 <= adj[current][done] < |parent|
    requires depth' == depth[adj[current][done] := depth[current] + 1]
    requires found' == (found || adj[current][done] == end)
    requires Common(adj, n, start, end, visited', parent', queue', rear', depth', found')
    requires !found ==> Scanning(adj, start, queue', depth', current, done + 1)
    requires parent' == parent[adj[current][done] := current]
    requires queue' == queue + [adj[current][done]]
    ensures ScanInv(adj, n, start, end, visited', parent', queue', rear',
                    depth', found', current, done + 1, depth0, parent0, found0, queue0,
                    added + [adj[current][done]])
  {
    PrefixGrows(adj[current], done);
    FirstNewStep(adj[current], done, depth0, parent0, depth, parent, current);
    GrownStep(depth0, parent0, depth, parent, current, adj[current][..done], adj[current][done]);
  }

  /** Passing over the visited neighbour at position `done` carries `ScanInv` one position further. */
  lemma ScanSkipped(adj: seq<seq<int>>, n: int, start: int, end: int,
                    visited: seq<bool>, parent: seq<int>, queue: seq<int>, rear: int,
                    depth: map<int, nat>, found: bool, current: int, done: int,
                    depth0: map<int, nat>, parent0: seq<int>, found0: bool,
                    queue0: seq<int>, added: seq<int>)
    requires 0 <= current < |adj| && 0 <= done < |adj[current]|
    requires ScanInv(adj, n, start, end, visited, parent, queue, rear,
                     depth, found, current, done, depth0, parent0, found0, queue0, added)
    requires end in depth ==> end in depth0
    requires adj[current][done] in depth
    ensures ScanInv(adj, n, start, end, visited, parent, queue, rear,
                    depth, found, current, done + 1, depth0, parent0, found0, queue0, added)
  {
    PrefixGrows(adj[current], done);
    FirstNewStep(adj[current], done, depth0, parent0, depth, parent, current);
    GrownSkip(depth0, parent0, depth, parent, current, adj[current][..done], adj[current][done]);
  }

  /**
    The parent chain of a vertex `v` of the search tree, read from `start`
    down to `v`: it follows the parent links back to the -1 of `start`, it
    is a walk, and it has one vertex more than the depth of `v`.
  */
  ghost function Chain(adj: seq<seq<int>>, n: int, start: int, parent: seq<int>,
                       depth: map<int, nat>, v: int): (c: seq<int>)
    requires Tree(adj, n, start, parent, depth) && v in depth
    ensures |c| == depth[v] + 1 && c[0] == start && c[|c| - 1] == v
    ensures forall i :: 0 <= i < |c| ==> c[i] in depth
    ensures forall i :: 0 < i < |c| ==> c[i - 1] == parent[c[i]]
    ensures Walk(adj, c, start, v)
    decreases depth[v]
  {
    if parent[v] == -1 then [v]
    else Chain(adj, n, start, parent, depth, parent[v]) + [v]
  }

  /**
    The reconstruction of `bfs`: follow parent links from `end` into
    `path[100]` until the -1 of `start`, then read `path` backwards. The
    result is the parent chain of `end`.
  */
  method TracePath(parent: array<int>, end: int, ghost adj: seq<seq<int>>, ghost n: int,
                   ghost start: int, ghost depth: map<int, nat>) returns (route: seq<int>)
    requires |depth| <= n <= MaxVertices && Tree(adj, n, start, parent[..], depth) && end in depth
    ensures route == Chain(adj, n, start, parent[..], depth, end)
    ensures |route| <= |depth|
  {
    ghost var chain := Chain(adj, n, start, parent[..], depth, end);
    ghost var m := |chain|;
    assert m <= |depth|;
    var path := new int[MaxVertices];
    var count := 0;
    var v := end;
    while v != -1
      modifies path
      invariant 0 <= count <= m
      invariant v == if count < m then chain[m - 1 - count] else -1
      invariant forall k :: 0 <= k < count ==> path[k] == chain[m - 1 - k]
      decreases m - count
    {
      path[count] := v;
      count := count + 1;
      v := parent[v];
    }
    assert count == m;

    route := [];
    var i := count - 1;
    while i > 0
      invariant 0 <= i <= count - 1
      invariant route == chain[..count - 1 - i]
    {
      assert chain[..count - i] == chain[..count - 1 - i] + [path[i]];
      route := route + [path[i]];
      i := i - 1;
    }
    route := route + [path[0]];
  }

  /**
    Every vertex reaches itself by the one-vertex walk, so the `None` that
    `Bfs` returns when `start == end` does not mean that no path exists.
  */
  lemma SelfReachable(adj: seq<seq<int>>, s: int)
    ensures Reachable(adj, s, s)
  {
    assert Walk(adj, [s], s, s);
  }

  /**
    `bfs` with the case `start == end` answered by the one-vertex path
    `[start]`: the result is `None` exactly when `end` cannot be reached.
  */
  method FindPath(g: Graph, start: int, end: int) returns (r: Option<seq<int>>)
    requires g.Valid()
    requires 1 <= start <= g.numVertices && 1 <= end <= g.numVertices
    ensures r.None? <==> !Reachable(g.Adj(), start, end)
    ensures r.Some? ==> Walk(g.Adj(), r.value, start, end) && |r.value| <= g.numVertices
    ensures r.Some? ==> forall p :: Walk(g.Adj(), p, start, end) ==> |r.value| <= |p|
  {
    if start == end {
      SelfReachable(g.Adj(), start);
      r := Some([start]);
    } else {
      r := Bfs(g, start, end);
    }
  }
}
