/**
 * The graph store `Grafo`: loading an edge list into an adjacency list or an
 * adjacency matrix. File reading and parsing are outside the model; `Load`
 * receives the vertex count and the parsed edge pairs.
 */
module GraphStore {
  import opened Seqs
  import opened Graphs

  /** An edge (u, v) as read from one line of the input. */
  type Edge = (nat, nat)

  /** Every endpoint is a vertex of an n-vertex graph. */
  predicate EdgesIn(edges: seq<Edge>, n: nat) {
    forall i :: 0 <= i < |edges| ==> edges[i].0 < n && edges[i].1 < n
  }

  /** `v` is adjacent to `u` after loading: (u, v) was read, or (v, u) was read into an undirected store. */
  predicate Joins(edges: seq<Edge>, directed: bool, u: nat, v: nat) {
    (u, v) in edges || (!directed && (v, u) in edges)
  }

  /** An empty `defaultdict(list)` over n vertices: every list empty. */
  function EmptyLists(n: nat): (r: seq<seq<nat>>)
    ensures |r| == n && forall u :: 0 <= u < n ==> r[u] == []
  {
    seq(n, _ => [])
  }

  /** The list-mode effect of one edge: `v` appended to `lista[u]`, and `u` to `lista[v]` unless directed. */
  function AppendEdge(lista: seq<seq<nat>>, e: Edge, directed: bool): (r: seq<seq<nat>>)
    requires e.0 < |lista| && e.1 < |lista|
    ensures |r| == |lista|
  {
    var once := lista[e.0 := lista[e.0] + [e.1]];
    if directed then once else once[e.1 := once[e.1] + [e.0]]
  }

  /** The adjacency lists after loading `edges` in order into a fresh store. */
  function ListOf(n: nat, edges: seq<Edge>, directed: bool): (r: seq<seq<nat>>)
    requires EdgesIn(edges, n)
    ensures |r| == n
  {
    if edges == [] then EmptyLists(n)
    else AppendEdge(ListOf(n, edges[..|edges| - 1], directed), edges[|edges| - 1], directed)
  }

  /** Every row has n cells. */
  predicate IsSquare(matriz: seq<seq<int>>, n: nat) {
    |matriz| == n && forall u :: 0 <= u < n ==> |matriz[u]| == n
  }

  /** `[[0]*n for _ in range(n)]`. */
  function ZeroMatrix(n: nat): (r: seq<seq<int>>)
    ensures IsSquare(r, n)
    ensures forall u, v :: 0 <= u < n && 0 <= v < n ==> r[u][v] == 0
  {
    seq(n, _ => seq(n, _ => 0))
  }

  /** The matrix-mode effect of one edge: `matriz[u][v] = 1`, and `matriz[v][u] = 1` unless directed. */
  function MarkEdge(matriz: seq<seq<int>>, n: nat, e: Edge, directed: bool): (r: seq<seq<int>>)
    requires IsSquare(matriz, n) && e.0 < n && e.1 < n
    ensures IsSquare(r, n)
  {
    var once := matriz[e.0 := matriz[e.0][e.1 := 1]];
    if directed then once else once[e.1 := once[e.1][e.0 := 1]]
  }

  /**
   * The adjacency matrix after inserting `edges` in order, starting from the
   * zero matrix that the first insertion allocates.
   */
  function MatrixOf(n: nat, edges: seq<Edge>, directed: bool): (r: seq<seq<int>>)
    requires EdgesIn(edges, n)
    ensures IsSquare(r, n)
  {
    if edges == [] then ZeroMatrix(n)
    else MarkEdge(MatrixOf(n, edges[..|edges| - 1], directed), n, edges[|edges| - 1], directed)
  }

  lemma JoinsSnoc(edges: seq<Edge>, e: Edge, directed: bool, u: nat, v: nat)
    ensures Joins(edges + [e], directed, u, v) <==>
      Joins(edges, directed, u, v) || e == (u, v) || (!directed && e == (v, u))
  {
  }

  /** List mode: `v` is in `lista[u]` exactly when the edge list joins u to v. */
  lemma {:induction false} ListOfAdjacency(n: nat, edges: seq<Edge>, directed: bool, u: nat, v: nat)
    requires EdgesIn(edges, n) && u < n
    ensures v in ListOf(n, edges, directed)[u] <==> Joins(edges, directed, u, v)
  {
    if edges != [] {
      var front, e := edges[..|edges| - 1], edges[|edges| - 1];
      SplitLast(edges);
      ListOfAdjacency(n, front, directed, u, v);
      JoinsSnoc(front, e, directed, u, v);
    }
  }

  /** Matrix mode: cell (u, v) is 1 exactly when the edge list joins u to v, and 0 otherwise. */
  lemma {:induction false} MatrixOfCells(n: nat, edges: seq<Edge>, directed: bool, u: nat, v: nat)
    requires EdgesIn(edges, n) && u < n && v < n
    ensures MatrixOf(n, edges, directed)[u][v] == if Joins(edges, directed, u, v) then 1 else 0
  {
    if edges != [] {
      var front, e := edges[..|edges| - 1], edges[|edges| - 1];
      SplitLast(edges);
      MatrixOfCells(n, front, directed, u, v);
      JoinsSnoc(front, e, directed, u, v);
    }
  }

  /** An undirected matrix is symmetric, with every cell 0 or 1. */
  lemma UndirectedMatrixSymmetric(n: nat, edges: seq<Edge>)
    requires EdgesIn(edges, n)
    ensures forall u, v :: 0 <= u < n && 0 <= v < n ==>
      MatrixOf(n, edges, false)[u][v] == MatrixOf(n, edges, false)[v][u] &&
      (MatrixOf(n, edges, false)[u][v] == 0 || MatrixOf(n, edges, false)[u][v] == 1)
  {
    var m := MatrixOf(n, edges, false);
    forall u, v | 0 <= u < n && 0 <= v < n
      ensures m[u][v] == m[v][u] && (m[u][v] == 0 || m[u][v] == 1)
    {
      MatrixOfCells(n, edges, false, u, v);
      MatrixOfCells(n, edges, false, v, u);
    }
  }

  lemma {:induction false} FlattenLengthUpdate<T>(ss: seq<seq<T>>, u: nat, s: seq<T>)
    requires u < |ss|
    ensures |Flatten(ss[u := s])| == |Flatten(ss)| - |ss[u]| + |s|
  {
    var m := |ss| - 1;
    if u < m {
      assert ss[u := s][..m] == ss[..m][u := s];
      FlattenLengthUpdate(ss[..m], u, s);
    } else {
      assert ss[u := s][..m] == ss[..m];
    }
  }

  lemma {:induction false} FlattenOfEmpties(n: nat)
    ensures Flatten(EmptyLists(n)) == []
  {
    if n > 0 {
      assert EmptyLists(n)[..n - 1] == EmptyLists(n - 1);
      FlattenOfEmpties(n - 1);
    }
  }

  /**
   * The lists hold one entry per loaded edge in a directed store and two in an
   * undirected one: the degrees add up to 2·|arestas|.
   */
  lemma {:induction false} ListOfTotal(n: nat, edges: seq<Edge>, directed: bool)
    requires EdgesIn(edges, n)
    ensures |Flatten(ListOf(n, edges, directed))| == (if directed then 1 else 2) * |edges|
  {
    if edges == [] {
      FlattenOfEmpties(n);
    } else {
      var front, e := edges[..|edges| - 1], edges[|edges| - 1];
      ListOfTotal(n, front, directed);
      var l := ListOf(n, front, directed);
      assert ListOf(n, edges, directed) == AppendEdge(l, e, directed);
      var once: seq<seq<nat>> := l[e.0 := l[e.0] + [e.1]];
      FlattenLengthUpdate<nat>(l, e.0, l[e.0] + [e.1]);
      assert |Flatten(once)| == |Flatten(l)| + 1;
      if !directed {
        FlattenLengthUpdate<nat>(once, e.1, once[e.1] + [e.0]);
        assert ListOf(n, edges, directed) == once[e.1 := once[e.1] + [e.0]];
        assert |Flatten(ListOf(n, edges, directed))| == |Flatten(l)| + 2;
      }
      assert |edges| == |front| + 1;
    }
  }

  /** How many edge ends lie at `u`: one per (u, _), and one per (_, u) unless directed. */
  function EdgeEnds(edges: seq<Edge>, directed: bool, u: nat): nat {
    if edges == [] then 0
    else
      var e := edges[|edges| - 1];
      EdgeEnds(edges[..|edges| - 1], directed, u)
        + (if e.0 == u then 1 else 0) + (if !directed && e.1 == u then 1 else 0)
  }

  /**
   * List mode: `len(lista[u])` counts the edge ends at `u`, repeated edges and
   * self-loops included, so it is the degree `_graus` reports for `u`.
   */
  lemma {:induction false} ListOfLength(n: nat, edges: seq<Edge>, directed: bool, u: nat)
    requires EdgesIn(edges, n) && u < n
    ensures |ListOf(n, edges, directed)[u]| == EdgeEnds(edges, directed, u)
  {
    if edges != [] {
      var front, e := edges[..|edges| - 1], edges[|edges| - 1];
      ListOfLength(n, front, directed, u);
      var l := ListOf(n, front, directed);
      var once: seq<seq<nat>> := l[e.0 := l[e.0] + [e.1]];
      assert |once[u]| == |l[u]| + (if e.0 == u then 1 else 0);
      assert ListOf(n, edges, directed) == if directed then once else once[e.1 := once[e.1] + [e.0]];
    }
  }

  /** The degree of `u` in the list view of a load is the number of edge ends at `u`. */
  lemma ListDegreeOfLoad(n: nat, edges: seq<Edge>, directed: bool, u: nat)
    requires EdgesIn(edges, n) && u < n
    ensures Graph(n, ListView(ListOf(n, edges, directed))).Valid()
    ensures |Neighbors(Graph(n, ListView(ListOf(n, edges, directed))), u)| == EdgeEnds(edges, directed, u)
  {
    ListViewOfLoad(n, edges, directed);
    ListOfLength(n, edges, directed, u);
  }

  /** The list view of a load is valid, and its neighbours are exactly the joined vertices. */
  lemma ListViewOfLoad(n: nat, edges: seq<Edge>, directed: bool)
    requires EdgesIn(edges, n)
    ensures Graph(n, ListView(ListOf(n, edges, directed))).Valid()
    ensures forall u, v :: 0 <= u < n && 0 <= v < n ==>
      (v in Neighbors(Graph(n, ListView(ListOf(n, edges, directed))), u) <==> Joins(edges, directed, u, v))
  {
    var lista := ListOf(n, edges, directed);
    forall u, j | 0 <= u < n && 0 <= j < |lista[u]| ensures lista[u][j] < n {
      ListOfAdjacency(n, edges, directed, u, lista[u][j]);
    }
    forall u, v | 0 <= u < n && 0 <= v < n
      ensures v in lista[u] <==> Joins(edges, directed, u, v)
    {
      ListOfAdjacency(n, edges, directed, u, v);
    }
  }

  /** The matrix view of a load is valid, and its neighbours are exactly the joined vertices. */
  lemma MatrixViewOfLoad(n: nat, edges: seq<Edge>, directed: bool)
    requires EdgesIn(edges, n)
    ensures Graph(n, MatrixView(MatrixOf(n, edges, directed))).Valid()
    ensures forall u, v :: 0 <= u < n && 0 <= v < n ==>
      (v in Neighbors(Graph(n, MatrixView(MatrixOf(n, edges, directed))), u) <==> Joins(edges, directed, u, v))
  {
    forall u, v | 0 <= u < n && 0 <= v < n
      ensures MatrixOf(n, edges, directed)[u][v] == if Joins(edges, directed, u, v) then 1 else 0
    {
      MatrixOfCells(n, edges, directed, u, v);
    }
  }

  /** The two representations of one load agree on every adjacency. */
  lemma ViewsAgree(n: nat, edges: seq<Edge>, directed: bool, u: nat, v: nat)
    requires EdgesIn(edges, n) && u < n && v < n
    ensures Graph(n, ListView(ListOf(n, edges, directed))).Valid()
    ensures Graph(n, MatrixView(MatrixOf(n, edges, directed))).Valid()
    ensures v in Neighbors(Graph(n, ListView(ListOf(n, edges, directed))), u) <==>
            v in Neighbors(Graph(n, MatrixView(MatrixOf(n, edges, directed))), u)
  {
    ListViewOfLoad(n, edges, directed);
    MatrixViewOfLoad(n, edges, directed);
  }

  /** An undirected load gives symmetric lists, in both the graph and the `defaultdict` reading. */
  lemma UndirectedListsSymmetric(n: nat, edges: seq<Edge>)
    requires EdgesIn(edges, n)
    ensures Graph(n, ListView(ListOf(n, edges, false))).Valid()
    ensures Symmetric(Graph(n, ListView(ListOf(n, edges, false))))
    ensures SymmetricLists(ListOf(n, edges, false))
  {
    var lista := ListOf(n, edges, false);
    ListViewOfLoad(n, edges, false);
    forall u: nat, v: nat | v in ListNeighbours(lista, u) ensures u in ListNeighbours(lista, v) {
      ListOfAdjacency(n, edges, false, u, v);
      ListOfAdjacency(n, edges, false, v, u);
    }
  }

  /** Loading one more edge in list mode appends it to the lists so far. */
  lemma ListOfStep(n: nat, edges: seq<Edge>, directed: bool, i: nat)
    requires EdgesIn(edges, n) && i < |edges|
    ensures EdgesIn(edges[..i], n) && EdgesIn(edges[..i + 1], n)
    ensures ListOf(n, edges[..i + 1], directed) == AppendEdge(ListOf(n, edges[..i], directed), edges[i], directed)
  {
    assert edges[..i + 1][..i] == edges[..i];
  }

  /** Loading one more edge in matrix mode marks it in the matrix so far. */
  lemma MatrixOfStep(n: nat, edges: seq<Edge>, directed: bool, i: nat)
    requires EdgesIn(edges, n) && i < |edges|
    ensures EdgesIn(edges[..i], n) && EdgesIn(edges[..i + 1], n)
    ensures MatrixOf(n, edges[..i + 1], directed) == MarkEdge(MatrixOf(n, edges[..i], directed), n, edges[i], directed)
  {
    assert edges[..i + 1][..i] == edges[..i];
  }

  /**
   * The store: `directed` and `repr` are fixed by the constructor; `Load`
   * fills `n`, `arestas` and one adjacency structure.
   * `lista` models the `defaultdict(list)`: index u holds the list of vertex u,
   * and a vertex beyond the sequence reads as an empty list.
   */
  class Grafo {
    const directed: bool
    const repr: Representation
    var n: nat
    var lista: seq<seq<nat>>
    var matriz: seq<seq<int>>
    var arestas: seq<Edge>

    constructor (directed: bool := false, repr: Representation := List)
      ensures this.directed == directed && this.repr == repr
      ensures n == 0 && lista == [] && matriz == [] && arestas == []
    {
      this.directed := directed;
      this.repr := repr;
      n := 0;
      lista := [];
      matriz := [];
      arestas := [];
    }

    /** The store's adjacency as a graph value, for the traversals. */
    function View(): Graph
      reads this
    {
      Graph(n, if repr == List then ListView(lista) else MatrixView(matriz))
    }

    /**
     * Record one edge in the adjacency structure: append `v` to `lista[u]`
     * (and `u` to `lista[v]` unless directed), or set the matrix cells, first
     * allocating an n-by-n zero matrix when there is none yet.
     */
    method InsertEdge(u: nat, v: nat)
      requires u < n && v < n
      requires repr == List ==> |lista| == n
      requires repr == Matrix ==> matriz == [] || IsSquare(matriz, n)
      modifies this
      ensures n == old(n) && arestas == old(arestas)
      ensures repr == List ==> lista == AppendEdge(old(lista), (u, v), directed) && matriz == old(matriz)
      ensures repr == Matrix ==> lista == old(lista)
      ensures repr == Matrix ==>
        matriz == MarkEdge(if old(matriz) == [] then ZeroMatrix(n) else old(matriz), n, (u, v), directed)
    {
      if repr == List {
        lista := lista[u := lista[u] + [v]];
        if !directed {
          lista := lista[v := lista[v] + [u]];
        }
      } else {
        if matriz == [] {
          matriz := ZeroMatrix(n);
        }
        matriz := matriz[u := matriz[u][v := 1]];
        if !directed {
          matriz := matriz[v := matriz[v][u := 1]];
        }
      }
    }

    /**
     * The edge-insertion part of loading. The store must be fresh (a second
     * load would keep the old lists). In matrix mode the matrix is allocated
     * at the first edge, so a load without edges leaves it empty.
     */
    method Load(n: nat, edges: seq<Edge>)
      requires lista == [] && matriz == []
      requires EdgesIn(edges, n)
      modifies this
      ensures this.n == n && arestas == edges
      ensures lista == if repr == List then ListOf(n, edges, directed) else []
      ensures matriz == if repr == Matrix && edges != [] then MatrixOf(n, edges, directed) else []
      ensures repr == List || edges != [] || n == 0 ==> View().Valid()
    {
      this.n := n;
      arestas := [];
      if repr == List {
        lista := EmptyLists(n);
      }
      for i := 0 to |edges|
        invariant this.n == n && arestas == edges[..i]
        invariant repr == List ==> lista == ListOf(n, edges[..i], directed) && matriz == []
        invariant repr == Matrix ==> lista == []
        invariant repr == Matrix && i == 0 ==> matriz == []
        invariant repr == Matrix && i > 0 ==> matriz == MatrixOf(n, edges[..i], directed)
      {
        var (u, v) := edges[i];
        assert edges[..i + 1] == edges[..i] + [(u, v)];
        arestas := arestas + [(u, v)];
        if repr == List {
          ListOfStep(n, edges, directed, i);
        } else {
          MatrixOfStep(n, edges, directed, i);
        }
        InsertEdge(u, v);
      }
      assert edges[..|edges|] == edges;
      if repr == List {
        ListViewOfLoad(n, edges, directed);
      } else if edges != [] {
        MatrixViewOfLoad(n, edges, directed);
      }
    }
  }
}
