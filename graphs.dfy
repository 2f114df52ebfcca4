/**
 * The read-only view of a graph store that every traversal works on: the
 * vertex count and whichever adjacency structure the store filled, an
 * adjacency list (`lista`) or a 0/1 adjacency matrix (`matriz`). Both sit
 * behind the single accessor `Neighbors`, and `Degrees` counts them.
 */
module Graphs {

  /** The `representation` argument of the store: "list" or "matrix". */
  datatype Representation = List | Matrix

  /** The adjacency structure that a store populated. */
  datatype View = ListView(lista: seq<seq<nat>>) | MatrixView(matriz: seq<seq<int>>)

  /** A graph on the vertices 0..n-1. */
  datatype Graph = Graph(n: nat, view: View) {

    /**
     * The structure fits the vertex count: one neighbour list per vertex whose
     * entries are vertices, or an n-by-n matrix of 0/1 cells.
     */
    predicate Valid() {
      match view
      case ListView(lista) =>
        |lista| == n && forall u, j :: 0 <= u < n && 0 <= j < |lista[u]| ==> lista[u][j] < n
      case MatrixView(matriz) =>
        |matriz| == n &&
        forall u :: 0 <= u < n ==>
          |matriz[u]| == n && forall j :: 0 <= j < n ==> matriz[u][j] == 0 || matriz[u][j] == 1
    }
  }

  /**
   * `lista[u]` on a `defaultdict(list)`: the stored list, or the empty list for
   * a vertex that was never used as a key.
   */
  function ListNeighbours(lista: seq<seq<nat>>, u: nat): seq<nat> {
    if u < |lista| then lista[u] else []
  }

  /**
   * Every list entry is answered by the reverse entry: the lists of an
   * undirected store.
   */
  ghost predicate SymmetricLists(lista: seq<seq<nat>>) {
    forall u: nat, v: nat :: v in ListNeighbours(lista, u) ==> u in ListNeighbours(lista, v)
  }

  /** The indices of the nonzero cells of a matrix row, ascending. */
  function NonzeroIndices(row: seq<int>): (r: seq<nat>)
    ensures forall x :: x in r ==> x < |row|
    ensures forall j :: 0 <= j < |row| ==> (j in r <==> row[j] != 0)
    ensures forall p, q :: 0 <= p < q < |r| ==> r[p] < r[q]
  {
    if row == [] then []
    else
      var m := |row| - 1;
      var front := NonzeroIndices(row[..m]);
      assert forall p :: 0 <= p < |front| ==> front[p] in front;
      front + (if row[m] != 0 then [m] else [])
  }

  /**
   * The neighbours of `v` in adjacency order: `lista[v]` in insertion order, or
   * the ascending columns `j` with `matriz[v][j] != 0`.
   */
  function Neighbors(g: Graph, v: nat): (r: seq<nat>)
    requires g.Valid() && v < g.n
    ensures forall x :: x in r ==> x < g.n
    ensures g.view.ListView? ==> r == g.view.lista[v]
    ensures g.view.MatrixView? ==>
      (forall j :: 0 <= j < g.n ==> (j in r <==> g.view.matriz[v][j] != 0)) &&
      forall p, q :: 0 <= p < q < |r| ==> r[p] < r[q]
  {
    match g.view
    case ListView(lista) => lista[v]
    case MatrixView(matriz) => NonzeroIndices(matriz[v])
  }

  /** Every edge has its reverse: the graph is undirected. */
  predicate Symmetric(g: Graph)
    requires g.Valid()
  {
    forall u, v :: 0 <= u < g.n && 0 <= v < g.n && v in Neighbors(g, u) ==> u in Neighbors(g, v)
  }

  /** Python's `sum` over a row. */
  function Sum(row: seq<int>): int {
    if row == [] then 0 else Sum(row[..|row| - 1]) + row[|row| - 1]
  }

  /** On a 0/1 row the sum counts the nonzero cells. */
  lemma {:induction false} SumOfBinaryRow(row: seq<int>)
    requires forall j :: 0 <= j < |row| ==> row[j] == 0 || row[j] == 1
    ensures Sum(row) == |NonzeroIndices(row)|
  {
    if row != [] {
      SumOfBinaryRow(row[..|row| - 1]);
    }
  }

  /**
   * The degree of every vertex: `len(lista[v])` in list mode, `sum(matriz[v])`
   * in matrix mode; either way, the number of its neighbours.
   */
  method Degrees(g: Graph) returns (graus: seq<int>)
    requires g.Valid()
    ensures |graus| == g.n
    ensures forall v :: 0 <= v < g.n ==> graus[v] == |Neighbors(g, v)|
  {
    graus := [];
    for v := 0 to g.n
      invariant |graus| == v
      invariant forall u :: 0 <= u < v ==> graus[u] == |Neighbors(g, u)|
    {
      var d: int;
      match g.view {
        case ListView(lista) =>
          d := |lista[v]|;
        case MatrixView(matriz) =>
          d := Sum(matriz[v]);
          SumOfBinaryRow(matriz[v]);
      }
      graus := graus + [d];
    }
  }
}
