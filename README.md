# Grafos: graph store, traversals and the Angluin–Valiant heuristic in Dafny

This project models the algorithmic core of a small Python graph library.

- **`Grafo`, the graph store** (`grafolib.py`). It loads an edge list into an
  adjacency list or a 0/1 adjacency matrix, and counts degrees. It runs
  breadth-first search, depth-first search and connected components. Those
  fill the lists `visitado`, `pai` and `nivel`, or build a list of
  components.
- **`algoritmo_valiant`, the Angluin–Valiant insertion heuristic**
  (`algoritmo_valiant.py`). It grows a cycle one vertex at a time, looking
  for a Hamiltonian cycle.

The model is proved against reference definitions: walks, reachability, hop
distance, the parent/level tree a traversal records, permutations and
Hamiltonian cycles.

Modules, one per concern:

- `Seqs` (`seqs.dfy`): distinctness, `range(n)`, permutations, the
  concatenation of a list of lists, and a count of unset flags used as a
  termination measure.
- `Graphs` (`graphs.dfy`): the read-only graph value that the traversals work
  on. Both representations sit behind one accessor, `Neighbors`: `lista[v]` in
  insertion order, or the ascending columns `j` with `matriz[v][j] != 0`.
  `Degrees` counts them.
- `GraphStore` (`graph_store.dfy`): the class `Grafo` with its fields `n`,
  `lista`, `matriz` and `arestas`. `Load` inserts the edges one by one.
  `ListOf` and `MatrixOf` state what a load builds, and lemmas characterise
  them.
- `Walks` (`walks.dfy`): walks, reachability, distance, the parent tree, and
  sets closed under taking neighbours.
- `Traversals` (`traversals.dfy`): `bfs` (with its FIFO queue as a sequence)
  and `dfs` with its recursive `dfs_rec`.
- `Components` (`components.dfy`): `connected_components` with its recursive
  `dfs_comp`, and the stable sort by size.
- `Valiant` (`valiant.dfy`): the insertion loop, one pass of it, and the
  final closure check.

The Python lists the traversals mutate are modelled as sequences. Each
operation takes them in and returns the updated ones. A recursive call
threads them through, as the closures of `dfs_rec` and `dfs_comp` share
them. `componentes.sort(key=len, reverse=True)` is a stable sort, and a
stable sort by a key has only one possible output. It is therefore modelled
as the insertion sort `SortBySize`, and `SortBySizeSpec` proves it sorted
and stable.

## Model

| member | source | states |
|---|---|---|
| `GraphStore.Grafo.constructor` | grafolib.py:4-10 | a new store has the given direction and representation (by default undirected, in list mode), `n = 0`, and empty `lista`, `matriz` and `arestas` |
| `GraphStore.Grafo.InsertEdge` | grafolib.py:20-29 | list mode appends `v` to `lista[u]`, and `u` to `lista[v]` unless directed. Matrix mode first allocates an n×n zero matrix if there is none, then sets cell (u,v), and (v,u) unless directed. Nothing else changes |
| `GraphStore.Grafo.Load` | grafolib.py:15-29 | after loading `n` and `edges` into a fresh store: `arestas == edges`; the list (or matrix) is exactly `ListOf` (or `MatrixOf`) of the edges in order; the view is a valid graph in list mode, and in matrix mode once an edge was read |
| `GraphStore.ListOfAdjacency` | grafolib.py:20-23 | `v` is in `lista[u]` if and only if (u,v) was loaded, or (v,u) was loaded into an undirected store |
| `GraphStore.MatrixOfCells` | grafolib.py:24-29 | cell (u,v) is 1 if and only if the edge list joins u to v, and 0 otherwise |
| `GraphStore.UndirectedMatrixSymmetric` | grafolib.py:24-29 | an undirected load gives a symmetric matrix whose cells are all 0 or 1 |
| `GraphStore.ListOfTotal` | grafolib.py:17-23 | the neighbour lists hold `|arestas|` entries in all for a directed store, and `2·|arestas|` for an undirected one |
| `GraphStore.ListViewOfLoad` | grafolib.py:17-23 | the list view of a load is a valid graph whose neighbours of `u` are exactly the vertices the edge list joins to `u` |
| `GraphStore.MatrixViewOfLoad` | grafolib.py:24-29 | the matrix view of a load is a valid graph whose neighbours of `u` are exactly the vertices the edge list joins to `u` |
| `GraphStore.ViewsAgree` | grafolib.py:17-29 | list mode and matrix mode, given the same edges, agree on every adjacency |
| `GraphStore.UndirectedListsSymmetric` | grafolib.py:20-23 | an undirected load gives symmetric adjacency lists: `v` in `lista[u]` if and only if `u` in `lista[v]` |
| `GraphStore.ListOfLength` | grafolib.py:20-23 | in list mode `lista[u]` has one entry per edge end at `u`: one for each loaded (u, v), and one for each loaded (v, u) unless directed, repeated edges and self-loops included |
| `GraphStore.ListDegreeOfLoad` | grafolib.py:46-48 | in list mode the degree `len(lista[u])` of a loaded vertex is the number of edge ends at `u` |
| `Graphs.NonzeroIndices` | grafolib.py:71-72 | the result holds exactly the indices of the nonzero cells of the row, in ascending order |
| `Graphs.Neighbors` | grafolib.py:71-72 | the neighbours are vertices; in list mode they are `lista[v]` itself; in matrix mode `j` is one if and only if `matriz[v][j] != 0`, listed in ascending order |
| `Graphs.SumOfBinaryRow` | grafolib.py:50-51 | the sum of a 0/1 row equals the number of its nonzero cells |
| `Graphs.Degrees` | grafolib.py:44-52 | one entry per vertex, and the degree of `v` is the number of its neighbours, whether computed as `len(lista[v])` or as `sum(matriz[v])` |
| `Walks.TreeExtend` | grafolib.py:74-77 | marking an unmarked neighbour `y` of a marked `x`, with `pai[y] = x` and `nivel[y] = nivel[x] + 1`, keeps the parent/level tree valid |
| `Walks.TreeEnter` | grafolib.py:90-91 | marking `v` at depth `d` on entry to `dfs_rec` completes the tree, when its parent was set just before the call |
| `Walks.TreeAdopt` | grafolib.py:95-97 | setting `pai[u] = v` for an unmarked neighbour `u` of a marked `v` sets up the recursive call at depth `nivel[v] + 1` |
| `Walks.TreeWalk` | grafolib.py:73-78 | in a parent/level tree every marked vertex `v` is reached from the source by a walk with exactly `nivel[v]` edges |
| `Walks.ClosedTreeReach` | grafolib.py:94-99 | a tree whose marks are closed under taking neighbours marks exactly the vertices reachable from the source |
| `Walks.LevelIsDistance` | grafolib.py:69-78 | if each neighbour of a marked vertex is marked at most one level deeper, `v` is marked if and only if it is reachable, and then its level is its hop distance |
| `Traversals.FreshIn` | grafolib.py:73-78 | the vertices the inner loop enqueues: each unmarked neighbour exactly once, and nothing else, in the order of its first occurrence in the adjacency |
| `Traversals.VisitNeighbours` | grafolib.py:71-78 | the inner loop marks exactly the unmarked neighbours of `atual`, each once, with parent `atual` and level `nivel[atual] + 1`. It returns them as `novos` in adjacency order (`FreshIn`). It keeps the tree valid and every earlier entry unchanged. Afterwards all neighbours of `atual` are marked |
| `Traversals.BfsStep` | grafolib.py:69-78 | dequeuing the front and enqueueing its newly marked neighbours keeps the queue invariant. The queue holds every marked vertex once, levels are sorted along it and span at most one, and expanded vertices have their neighbours marked at most one level deeper |
| `Traversals.StepDistinct` | grafolib.py:74-78 | only unmarked vertices are enqueued, so no vertex enters the queue twice |
| `Traversals.BfsRound` | grafolib.py:70-78 | one round dequeues the front and enqueues the vertices it newly marks: the new queue is the old one without its front, followed by `novos`. Those are exactly the front's unmarked neighbours in adjacency order, each with the front as parent, one level deeper. Earlier entries are unchanged, the queue invariant is kept, and either an unmarked vertex gets marked or the queue gets shorter, so the loop terminates |
| `Traversals.BfsDone` | grafolib.py:69-78 | when the queue is empty, the marked vertices are exactly the reachable ones and every level is the hop distance |
| `Traversals.BfsDequeued` | grafolib.py:69-70 | when the queue is empty, the vertices dequeued, in order, start at the source, repeat none, number at most n, and are exactly the marked ones |
| `Traversals.Bfs` | grafolib.py:61-78 | `bfs` returns a valid parent/level tree rooted at the source. Its marked vertices are exactly the reachable ones, each at its hop distance. Vertices leave the queue source first, none twice, so there are at most n rounds |
| `Traversals.DfsRec` | grafolib.py:89-97 | `dfs_rec(v, d)` marks `v` at depth `d` and keeps the tree valid. It leaves every entry already marked unchanged. It newly marks exactly the vertices reached from `v` by a walk through vertices unmarked at the call. Each of them other than `v` has a newly marked parent, so they form the subtree below `v`. Every vertex it marks has all its neighbours marked on return |
| `Traversals.VisitChild` | grafolib.py:94-97 | for one neighbour `u`: if it is unmarked, set `pai[u] = v` and recurse, so `u` ends at level `d + 1` with parent `v`; if it is marked, change nothing. Afterwards `u` is marked. Everything newly marked is reached from `v` through vertices unmarked before, and hangs below `v` in the tree |
| `Traversals.Dfs` | grafolib.py:84-99 | `dfs` returns a valid parent/level tree rooted at the source whose marked vertices are exactly the reachable ones |
| `Components.DfsComp` | grafolib.py:110-117 | `dfs_comp(v, comp)` appends `v` and then the vertices it newly marks, each once, and nothing else. All of them are reachable from `v`, and each has its neighbours marked on return |
| `Components.CompChild` | grafolib.py:115-117 | recurses on an unmarked neighbour, or changes nothing when it is marked. What it appends is reachable from `v`, and the neighbour ends up marked |
| `Components.InsertBySize` | grafolib.py:125 | one insertion step of the stable sort: the result holds the list's elements plus the inserted one, as a multiset |
| `Components.SortBySize` | grafolib.py:125 | the sorted list is a permutation of the components |
| `Components.SortBySizeSpec` | grafolib.py:125 | sizes never increase along the sorted list, and the components of each size keep their discovery order |
| `Components.SortFlatten` | grafolib.py:125 | sorting keeps the multiset of vertices held by the components |
| `Components.SortRootOrdered` | grafolib.py:119-125 | components of equal size come out in ascending order of their roots |
| `Components.AddComponent` | grafolib.py:119-123 | one turn of the outer loop keeps its invariant. Marks equal members, each vertex appears once, vertices below the loop index are marked, and components are rooted at ascending roots. The marked set and every prefix of the components are closed under taking neighbours |
| `Components.ComponentsAreClasses` | grafolib.py:106-123 | in an undirected graph two vertices share a discovered component if and only if one reaches the other |
| `Components.DiscoveredMaximal` | grafolib.py:119-123 | every vertex reachable from a discovered component's root lies in that component or in one found from a smaller root |
| `Components.SortMaximal` | grafolib.py:125 | sorting by size keeps that maximality |
| `Components.SortedComponents` | grafolib.py:106-125 | the sorted list partitions 0..n-1 into rooted components, each vertex in exactly one, sorted by size with equal sizes in root order. Each component holds everything its root reaches that no component with a smaller root holds. In an undirected graph the components are the reachability classes |
| `Components.ConnectedComponents` | grafolib.py:106-125 | `connected_components` returns a partition of 0..n-1, every vertex in exactly one component. Each component is headed by its smallest vertex, which reaches all of them, and every vertex its root reaches lies in it or in a component with a smaller root. Sizes do not increase, and equal sizes appear by ascending root. In an undirected graph two vertices share a component if and only if they are connected |
| `Valiant.Next` | algoritmo_valiant.py:18 | the vertex after `ciclo[i]` is `ciclo[(i + 1) % len(ciclo)]` |
| `Valiant.RemoveFirst` | algoritmo_valiant.py:23 | `list.remove(x)`, called on a list that holds `x` as at line 23, removes one occurrence of `x` (multiset) |
| `Valiant.RemoveFirstAt` | algoritmo_valiant.py:23 | when `s[k]` does not occur before index `k`, removing it drops exactly index `k` |
| `Valiant.InsertionPass` | algoritmo_valiant.py:14-27 | a pass inserts if and only if some remaining vertex fits somewhere. It inserts the first such vertex at its first fitting position, removes it from `vertices` and adds it to `visitado`; a pass that inserts nothing changes nothing |
| `Valiant.InsertKeepsCycle` | algoritmo_valiant.py:16-21 | with symmetric lists, inserting a vertex adjacent to both `ciclo[i]` and its successor keeps every pair of consecutive vertices, the last-to-first pair included, an edge |
| `Valiant.InsertCounts` | algoritmo_valiant.py:21-23 | moving a remaining vertex into the cycle keeps the cycle and `vertices` a split of the order, and `visitado` the set of cycle vertices |
| `Valiant.InsertStep` | algoritmo_valiant.py:21-23 | an insertion keeps the loop invariant |
| `Valiant.SplitFacts` | algoritmo_valiant.py:5-9 | the cycle and the remaining vertices are disjoint, repetition-free, and together hold each of 0..n-1 exactly once |
| `Valiant.CompleteNotStuck` | algoritmo_valiant.py:15-21 | in a complete graph some remaining vertex always fits |
| `Valiant.HamiltonianNoIsolated` | algoritmo_valiant.py:32-33 | a graph with a Hamiltonian cycle has no vertex with an empty neighbour list |
| `Valiant.ClosedCycle` | algoritmo_valiant.py:32-33 | the returned `ciclo + [ciclo[0]]` has length n+1, the same first and last vertex, and its first n vertices are a permutation of 0..n-1; with symmetric lists it is a Hamiltonian cycle |
| `Valiant.StuckOutside` | algoritmo_valiant.py:28-29 | after a failed pass, no vertex outside the cycle fits anywhere in it |
| `Valiant.CompleteCloses` | algoritmo_valiant.py:32 | in a complete graph on at least two vertices a full cycle closes |
| `Valiant.Grow` | algoritmo_valiant.py:8-29 | the loop runs while a vertex is outside the cycle and fewer than `max_tentativas` passes have failed. It keeps the invariant, and after a failed pass the state is stuck for good. It makes at most n-1 insertions plus `max_tentativas` failed passes, and never fails a pass in a complete graph |
| `Valiant.Valiant` | algoritmo_valiant.py:3-35 | `maxTentativas` defaults to 100. The seed is the last vertex of the order. Success returns `ciclo + [ciclo[0]]` of length n+1 through every vertex once and closed by an edge; with symmetric lists it is a Hamiltonian cycle. Failure returns a repetition-free partial cycle that is not a closed cycle through all n vertices; when `maxTentativas` ≥ 1, no outside vertex fits in it. With `maxTentativas` ≥ 1 a complete graph on at least two vertices succeeds (with `maxTentativas` ≤ 0 the loop never runs). With symmetric lists, a vertex with no neighbours forces failure |

## Left out

- Reading and parsing the input file (grafolib.py:13-18). `Load` receives `n` and the parsed edge pairs instead.
- All file output (grafolib.py:31-42, 79-82, 101-104, 126-129). The traversals return `visitado`, `pai` and `nivel`, and components returns the sorted list. The per-component `sorted(comp)` is output formatting only.
- Floating-point statistics: the average degree (grafolib.py:34) and `_distribuicao_empirica` (grafolib.py:54-59) divide by `n` in floating point. In list mode the integer fact they rest on, that the degrees sum to `|arestas|` or `2·|arestas|`, is `ListOfTotal`, and `ListDegreeOfLoad` gives each degree as a count of edge ends. In matrix mode a repeated edge or a self-loop fills a single cell, so the degrees count distinct neighbours and their sum can be smaller; the model states no sum for that mode.
- Representations other than "list" and "matrix": `Representation` has only those two values.
- `random.shuffle` (algoritmo_valiant.py:6). The shuffled vertex order is the parameter `order`, required to be a permutation of 0..n-1. Success probabilities are not modelled.
- `avaliador_valiant.py` and `main.py` are not part of this model: they are an experiment driver and a script around the library.
- Graphs.Degrees: returns a degree for every vertex. In list mode the source's `defaultdict` holds only the vertices used as keys: those that are the first end of some edge (either end when undirected). Other vertices are missing from it, including a vertex with only incoming edges in a directed store, unless a traversal's lookup created their keys earlier.
- GraphStore.Grafo.Load: requires a fresh store. A second load in the source clears `arestas` but appends to the old lists.
- GraphStore.Grafo.Load: in matrix mode a load without edges leaves `matriz` empty (grafolib.py:25-26). The view is then not a valid graph for n > 0, so the traversals' preconditions exclude it. The source would fail there with an index error.
- Valiant.Valiant: requires n ≥ 1. The source's `vertices.pop()` raises on an empty vertex list.
- Valiant.Valiant: the graph is the adjacency list `lista` alone, as the source reads only `grafo.lista`. Under a matrix store that list is empty, and the model covers this as `lista == []`.
- Traversals.Dfs: the contract does not pin which depth-first tree is built. Each `dfs_rec` call is characterised (what it marks, and that those vertices hang below it), but the whole-tree consequence, no cross edges in an undirected graph, is not stated. A breadth-first tree of the same graph also meets the ensures of `Dfs`.
- Traversals.DfsRec, Traversals.Dfs, Components.DfsComp and Components.ConnectedComponents: the recursion depth is unbounded. Python's default recursion limit of about 1000 frames makes `dfs_rec` and `dfs_comp` (grafolib.py:89-97, 110-117) raise `RecursionError` once a depth-first path grows that deep, for example on the path 0-1-…-1000 searched from 0; the model returns its result there.
- Aliasing and in-place updates: the lists are values, so no two names share one list.
