# Path search in an undirected graph (grafo.c), modelled in Dafny

grafo.c builds an undirected graph on the vertices 1..n (at most 100) as an
array of adjacency lists. It answers one query: find a path from a start
vertex to an end vertex by breadth-first search over a fixed-size array
queue, then print that path by following parent links back from the end.

The model keeps the program's imperative form:

- `wrappers.dfy`: `Option`, the result of the search.
- `graph.dfy`, module `Graphs`:
  - The class `Graph` holds `numVertices` and an array of neighbour lists.
  - Each C linked list is a `seq<int>` whose first element is the list head, so `addEdge` prepends.
  - `Link` is the value-level effect of one `addEdge`. The lemmas about it prove that the lists stay inside 1..n and stay symmetric.
  - `Walk` and `Reachable` define paths in the graph.
- `queue.dfy`, module `Queues`:
  - The class `Queue` has `items[100]`, `front` and `rear`, with `createQueue`, `isEmpty`, `enqueue` and `dequeue`.
  - `Contents()` is the ghost view `items[front..rear]` of the waiting values.
  - `EnqueueAllDequeueAll` proves first-in first-out order and the drop past the last slot.
- `search.dfy`, module `Search`: `bfs` returns `Some(path)` where the program prints a path, and `None` where it prints "no path".
  - Its phases are separate methods, for proof cost:
    - `Prepare`: array set-up.
    - `Explore`: the outer queue loop.
    - `ScanNeighbours`: the inner list loop, with its early exit.
    - `ScanOne`: one pass of that loop.
    - `Visit`: the body for an unvisited neighbour.
    - `TracePath`: the reconstruction into `path[100]`.
  - The proof follows a ghost map `depth` from each visited vertex to its distance in parent links from `start`.
  - `Tree` says that the parent links form a tree over the visited vertices.
  - `Minimal`, `Closed` and `Layered` are the breadth-first invariants. They hold until `end` is visited, so every vertex visited up to then gets its true distance from `start`. After that only `end`'s depth is guaranteed minimal.

The break at grafo.c:128-130 leaves only the neighbour list of the current
vertex. The queue loop goes on until the queue is empty. The model does the
same: `ScanNeighbours` returns, and `Explore` keeps dequeuing. The invariant
tracks a ghost flag `found`. Once `end` has been enqueued, only its depth
matters, and that depth is already minimal.

Vertices visited after the break can get parents that are not on shortest
walks. An example: add the edges (1,3), (1,2), (2,4) and (4,3), so that the
lists become 1: [2, 3], 2: [4, 1], 4: [3, 2]. Then search from 1 to 2.
Vertex 2 is visited and the scan of 1 breaks before 3. Later 4 gets parent
2, and 3 gets parent 4 at depth 3, although 3 is a neighbour of 1. The
reported path to `end` is still a shortest one. A skipped neighbour whose
only neighbour is the vertex being scanned is never visited at all.

The comment over `bfs` (grafo.c:101) says that it finds a path between two
vertices, and `main` accepts a query with `src == dest` (grafo.c:200-206),
so such a query should answer the one-vertex path `[start]`. The code does
not: `start` is marked visited with
parent -1 before the loop, so grafo.c:137 reports "no path". `Bfs` follows
the code. `FindPath` is the corrected search (see Findings).

## Model

| member | source | states |
|---|---|---|
| Graphs.CreateGraph | grafo.c:33-47 | null exactly when the size is `<= 0` or `> 100`; otherwise a new valid graph with `numVertices == vertices` and every list 1..n empty |
| Graphs.Graph.constructor | grafo.c:39-46 | the new graph has `vertices + 1` list slots, lists 1..n empty, and satisfies the graph invariant |
| Graphs.Graph.AddEdge | grafo.c:50-65 | an endpoint outside 1..numVertices leaves every list unchanged; otherwise the lists become `Link(old lists, src, dest)` and the invariant (entries in 1..n, symmetric counts) still holds |
| Graphs.Link | grafo.c:56-64 | `dest` is prepended to `src`'s list and then `src` to `dest`'s list; a self-loop puts two copies of `u` on `u`'s list; every other list is unchanged |
| Graphs.LinkCount | grafo.c:56-64 | after linking, the count of `v` in `u`'s list grows by one for each of the directions `src->dest` and `dest->src` that equals `(u, v)`, and by nothing otherwise |
| Graphs.LinkKeepsInvariant | grafo.c:50-65 | linking two vertices in 1..n keeps every list inside 1..n and keeps "`v` on `u`'s list as often as `u` on `v`'s" |
| Queues.Queue.constructor | grafo.c:68-73 | a new queue has `front == rear == -1` and is empty |
| Queues.Queue.IsEmpty | grafo.c:76-78 | true exactly when no value is waiting |
| Queues.Queue.Enqueue | grafo.c:81-87 | with `rear == 99` nothing changes; otherwise `rear` grows by one and the value is appended after the waiting ones |
| Queues.Queue.Dequeue | grafo.c:90-99 | on an empty queue returns -1 and changes nothing; otherwise returns the oldest value and removes it; taking the last value resets both indices to -1 |
| Queues.EnqueueAll | grafo.c:81-87 | offering `xs` to an empty queue leaves exactly its first `min(|xs|, 100)` values waiting, in order |
| Queues.DequeueAll | grafo.c:90-99 | dequeuing until empty yields the waiting values oldest first |
| Queues.EnqueueAllDequeueAll | grafo.c:68-99 | values go out in the order they came in; only the first 100 are kept |
| Search.Prepare | grafo.c:103-114 | after the set-up the queue holds just `start` and the visited set is just `start` at depth 0 (`depth == map[start := 0]`), with parent -1; every other vertex is unvisited with parent -1; the search invariants hold |
| Search.Explore | grafo.c:116-134 | the queue loop ends with an empty queue; the parent tree is kept throughout; unless `end` was reached, every neighbour of a visited vertex is visited and every depth is the true distance |
| Search.ScanNeighbours | grafo.c:119-133 | scanning `current`'s list keeps the parent tree and the breadth-first invariants; it covers the prefix `neighbours[..stop]`, all of whose vertices end up visited, and stops before the end of the list only right after newly visiting `end`, at its first occurrence in the list; vertices visited before keep depth and parent, new ones are scanned neighbours with parent `current` one level deeper; the queue becomes the old queue followed by `added`, which holds exactly the newly visited vertices, in list order (`FirstNew` of the scanned prefix) |
| Search.ScanOne | grafo.c:121-131 | one pass over the neighbour `w`: the queue gains `[w]` when `w` was unvisited and is unchanged otherwise; it asks to stop exactly when `w` was unvisited and is `end`; the scan invariant holds one position further, so a newly visited `end` is the last scanned neighbour and occurs nowhere before it |
| Search.ScanVisited | grafo.c:121-125 | visiting the unvisited neighbour at position `done` appends it to the scan's new vertices and keeps the scan invariant one position further |
| Search.ScanSkipped | grafo.c:120-132 | passing over a visited neighbour keeps the scan invariant one position further with nothing added |
| Search.FirstNewStep | grafo.c:120-125 | the vertices a scan enqueues grow, at each neighbour, by that neighbour exactly when it was not yet visited |
| Search.FirstNewElements | grafo.c:120-125 | the vertices a scan enqueues are exactly the list's vertices not visited before it, each once |
| Search.Visit | grafo.c:122-125 | an unvisited neighbour `w` is flagged and gets `current` as parent, every other `visited` and `parent` entry unchanged; it gets depth `depth[current] + 1`; the queue becomes the old queue plus `[w]`, so it is never dropped |
| Search.Discover | grafo.c:122-125 | before the enqueue of an unvisited vertex, `rear < 99`, so the capacity guard of `enqueue` (grafo.c:82) never drops a vertex in `bfs`; all invariants hold for the grown state |
| Search.GrownStep | grafo.c:122-124 | visiting a new neighbour `w` changes no earlier depth or parent and adds only `w`, below `current`, to what the scan has changed |
| Search.GrownSkip | grafo.c:120-132 | passing over an already visited neighbour leaves what the scan has changed as it was |
| Search.TreeGrows | grafo.c:122-124 | hanging an unvisited neighbour `w` under `current` keeps the parent tree, and the visited set still has at most n vertices |
| Search.ScanGrows | grafo.c:120-125 | visiting the next neighbour keeps depths minimal, the queue's depths sorted within one level, and scanned neighbours visited |
| Search.NewVertexIsFar | grafo.c:116-125 | a vertex first met while expanding `current` has no walk from `start` with `depth[current] + 1` vertices or fewer, so depth `depth[current] + 1` is its distance |
| Search.StartScan | grafo.c:116-119 | dequeuing the head keeps the invariants, and the scan of its neighbours starts at the head's depth |
| Search.FinishScan | grafo.c:120-133 | once `current`'s whole list has been scanned, `current` is closed: all its neighbours are visited |
| Search.WalkStaysVisited | grafo.c:116-134 | when no visited vertex has an unvisited neighbour, every walk from `start` stays among visited vertices |
| Search.Conclude | grafo.c:137-139 | after the loop, `parent[end] == -1` implies that `end` is `start` or is unreachable; any other parent means that `end` was visited at its true distance |
| Search.Chain | grafo.c:143-144 | the parent chain of a visited vertex `v`: starts at `start`, ends at `v`, follows parent links, is a walk, and has `depth[v] + 1` vertices |
| Search.TracePath | grafo.c:141-149 | following parents from `end` into `path[100]` and reading it backwards yields exactly the parent chain of `end`, which fits the array |
| Search.Bfs | grafo.c:102-155 | `None` exactly when `start == end` or `end` is unreachable; otherwise a walk from `start` to `end` with at most `numVertices` vertices and no more vertices than any other walk |
| Search.SelfReachable | grafo.c:113 | every vertex reaches itself, so `Bfs`'s `None` for `start == end` is not "no path" |
| Search.FindPath | grafo.c:137-149 | corrected search: `None` exactly when `end` is unreachable; otherwise a shortest walk, `[start]` when `start == end` |

## Left out

- `main` (grafo.c:158-212): prompts, `scanf`, exit codes, and its own range checks. It aborts on an out-of-range edge, which `addEdge` would skip. Its check of the query endpoints (grafo.c:200-204) becomes the precondition of `Bfs`.
- `printf` output: the error in `createGraph` becomes a null result, the warning in `addEdge` becomes `ok == false`, and the printed path or "no path" becomes `Some`/`None`.
- `malloc`/`free`, `createNode`, and the identity of list nodes: a list is a sequence, and a new node is a new head element. Leaked nodes and a failed `malloc` are not modelled.
- Graphs.Graph.constructor: slot 0 of the list array is allocated but never set in C; the model fills it with an empty list that no operation reads.
- Queues.Queue.constructor: the unused `items` slots are uninitialised in C; the model's Dafny array starts with default values that are never read.
- Search.Bfs: `visited` is an `int` array of 0/1 in C and a `bool` array here.
- Search.Bfs: `start` or `end` outside 1..numVertices is excluded by precondition, because the C function then reads uninitialised slots (slot 0 of `adjLists`, `visited` and `parent` is allocated at grafo.c:41 and 103-104 but never set) or out-of-bounds ones.

## Findings

| source | as written | input that shows it | evidently intended | confidence | as-written member | corrected member |
|---|---|---|---|---|---|---|
| grafo.c:113-138 | `start` is visited with parent -1, so `start == end` prints "no path" | any graph, `start = end = 1` | the one-vertex path `[start]` | medium, not executed | Search.Bfs, Search.SelfReachable | Search.FindPath |
