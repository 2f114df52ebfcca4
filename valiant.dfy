/**
 * The Angluin–Valiant insertion heuristic for a Hamiltonian cycle. It starts
 * from a one-vertex cycle and repeatedly inserts a remaining vertex between
 * two consecutive cycle vertices that are both adjacent to it; a counter of
 * failed passes bounds the search. The random shuffle of the vertices is an
 * input here: `order`, a permutation of 0..n-1.
 */
module Valiant {
  import opened Seqs
  import opened Graphs

  /** The vertex after `ciclo[i]` in the cycle: `ciclo[(i + 1) % len(ciclo)]`. */
  function Next(ciclo: seq<nat>, i: nat): (w: nat)
    requires i < |ciclo|
    ensures w == ciclo[(i + 1) % |ciclo|]
  {
    if i + 1 < |ciclo| then ciclo[i + 1] else ciclo[0]
  }

  /** `v` may go between `ciclo[i]` and the vertex after it: it is adjacent to both. */
  predicate Fits(lista: seq<seq<nat>>, ciclo: seq<nat>, v: nat, i: int) {
    0 <= i < |ciclo| && v in ListNeighbours(lista, ciclo[i]) && v in ListNeighbours(lista, Next(ciclo, i))
  }

  /** No remaining vertex fits anywhere in the cycle. */
  predicate Stuck(lista: seq<seq<nat>>, ciclo: seq<nat>, vertices: seq<nat>) {
    forall k, i :: 0 <= k < |vertices| && 0 <= i < |ciclo| ==> !Fits(lista, ciclo, vertices[k], i)
  }

  /**
   * The insertion a pass makes: `vertices[k]` is the first remaining vertex
   * that fits somewhere, and `i` is the first place it fits.
   */
  predicate FirstFit(lista: seq<seq<nat>>, ciclo: seq<nat>, vertices: seq<nat>, k: int, i: int) {
    0 <= k < |vertices| && Fits(lista, ciclo, vertices[k], i) &&
    (forall k', i' :: 0 <= k' < k && 0 <= i' < |ciclo| ==> !Fits(lista, ciclo, vertices[k'], i')) &&
    forall i' :: 0 <= i' < i ==> !Fits(lista, ciclo, vertices[k], i')
  }

  /**
   * Python's `list.remove(x)`: drop the first occurrence of `x`. Python
   * raises `ValueError` when `x` is absent, so `x` must occur in `s`.
   */
  function RemoveFirst(s: seq<nat>, x: nat): (r: seq<nat>)
    requires x in s
    ensures multiset(r) + multiset{x} == multiset(s)
  {
    assert s == [s[0]] + s[1..];
    if s[0] == x then s[1..]
    else [s[0]] + RemoveFirst(s[1..], x)
  }

  /** When `s[k]` does not occur before index `k`, removing its first occurrence removes index `k`. */
  lemma {:induction false} RemoveFirstAt(s: seq<nat>, k: nat)
    requires k < |s| && forall j :: 0 <= j < k ==> s[j] != s[k]
    ensures RemoveFirst(s, s[k]) == s[..k] + s[k + 1..]
  {
    if k > 0 {
      var t := s[1..];
      assert forall j :: 0 <= j < k - 1 ==> t[j] == s[j + 1];
      RemoveFirstAt(t, k - 1);
      SliceTail(s, k);
      AppendAssoc([s[0]], t[..k - 1], t[k..]);
    }
  }

  /**
   * One pass of the `while` body: scan the remaining vertices in order and,
   * for each, the cycle positions in order; insert the first vertex that
   * fits at the first place it fits, and stop. A pass inserts exactly when
   * the state is not stuck, and a pass that inserts nothing changes nothing.
   */
  method InsertionPass(lista: seq<seq<nat>>, ciclo: seq<nat>, vertices: seq<nat>, visitado: set<nat>)
    returns (inseriu: bool, ciclo': seq<nat>, vertices': seq<nat>, visitado': set<nat>, ghost k: nat, ghost i: nat)
    requires |ciclo| >= 1
    ensures inseriu <==> !Stuck(lista, ciclo, vertices)
    ensures inseriu ==>
      FirstFit(lista, ciclo, vertices, k, i) &&
      ciclo' == ciclo[..i + 1] + [vertices[k]] + ciclo[i + 1..] &&
      vertices' == vertices[..k] + vertices[k + 1..] &&
      visitado' == visitado + {vertices[k]}
    ensures !inseriu ==> ciclo' == ciclo && vertices' == vertices && visitado' == visitado
  {
    inseriu, ciclo', vertices', visitado', k, i := false, ciclo, vertices, visitado, 0, 0;
    for kk := 0 to |vertices|
      invariant !inseriu
      invariant ciclo' == ciclo && vertices' == vertices && visitado' == visitado
      invariant forall k', i' :: 0 <= k' < kk && 0 <= i' < |ciclo| ==> !Fits(lista, ciclo, vertices[k'], i')
    {
      var v := vertices[kk];
      for ii := 0 to |ciclo|
        invariant !inseriu
        invariant ciclo' == ciclo && vertices' == vertices && visitado' == visitado
        invariant forall i' :: 0 <= i' < ii ==> !Fits(lista, ciclo, v, i')
      {
        var u := ciclo[ii];
        var w := ciclo[(ii + 1) % |ciclo|];
        assert w == Next(ciclo, ii);
        if v in ListNeighbours(lista, u) && v in ListNeighbours(lista, w) {
          assert Fits(lista, ciclo, v, ii);
          assert forall j :: 0 <= j < kk ==> !Fits(lista, ciclo, vertices[j], ii);
          ciclo' := ciclo[..ii + 1] + [v] + ciclo[ii + 1..];
          visitado' := visitado + {v};
          RemoveFirstAt(vertices, kk);
          vertices' := RemoveFirst(vertices, v);
          inseriu := true;
          k, i := kk, ii;
          return;
        }
      }
    }
  }

  /** Every vertex of `c` but the last is followed by one of its neighbours. */
  predicate PathAdjacent(lista: seq<seq<nat>>, c: seq<nat>) {
    forall j :: 0 <= j < |c| - 1 ==> c[j + 1] in ListNeighbours(lista, c[j])
  }

  /** A path that, once it has two vertices, also closes: the first vertex is a neighbour of the last. */
  predicate CycleAdjacent(lista: seq<seq<nat>>, c: seq<nat>) {
    PathAdjacent(lista, c) && (|c| >= 2 ==> c[0] in ListNeighbours(lista, c[|c| - 1]))
  }

  /** `r` visits every vertex once and returns to its start, along edges. */
  predicate HamiltonianCycle(lista: seq<seq<nat>>, n: nat, r: seq<nat>) {
    |r| == n + 1 && r[0] == r[n] && IsPermutation(r[..n], n) &&
    forall j :: 0 <= j < n ==> r[j + 1] in ListNeighbours(lista, r[j])
  }

  /** Every vertex below `n` is a neighbour of every other one. */
  predicate Complete(lista: seq<seq<nat>>, n: nat) {
    forall u, w :: 0 <= u < n && 0 <= w < n && u != w ==> w in ListNeighbours(lista, u)
  }

  /** Inserting `v` between `c[i]` and `c[i + 1]`, both edges present, keeps the cycle. */
  lemma InsertInside(lista: seq<seq<nat>>, c: seq<nat>, v: nat, i: nat)
    requires CycleAdjacent(lista, c) && i + 1 < |c|
    requires v in ListNeighbours(lista, c[i]) && c[i + 1] in ListNeighbours(lista, v)
    ensures CycleAdjacent(lista, c[..i + 1] + [v] + c[i + 1..])
  {
    var c' := c[..i + 1] + [v] + c[i + 1..];
    assert |c'| == |c| + 1;
    assert forall j :: 0 <= j <= i ==> c'[j] == c[j];
    assert c'[i + 1] == v;
    assert forall j :: i + 2 <= j < |c'| ==> c'[j] == c[j - 1];
    forall j | 0 <= j < |c'| - 1 ensures c'[j + 1] in ListNeighbours(lista, c'[j]) {
      if j < i {
        assert c[j + 1] in ListNeighbours(lista, c[j]);
      } else if j > i + 1 {
        assert c[j] in ListNeighbours(lista, c[j - 1]);
      }
    }
  }

  /** Appending `v` after the last vertex, both closing edges present, keeps the cycle. */
  lemma InsertAtEnd(lista: seq<seq<nat>>, c: seq<nat>, v: nat)
    requires CycleAdjacent(lista, c) && |c| >= 1
    requires v in ListNeighbours(lista, c[|c| - 1]) && c[0] in ListNeighbours(lista, v)
    ensures CycleAdjacent(lista, c + [v])
  {
    var c' := c + [v];
    assert forall j :: 0 <= j < |c| ==> c'[j] == c[j];
    forall j | 0 <= j < |c'| - 1 ensures c'[j + 1] in ListNeighbours(lista, c'[j]) {
      if j < |c| - 1 {
        assert c[j + 1] in ListNeighbours(lista, c[j]);
      }
    }
  }

  /**
   * In an undirected graph, inserting a vertex where it fits keeps the cycle
   * a cycle: it is a neighbour of the vertex before it, and the vertex after
   * it is its neighbour because the lists are symmetric.
   */
  lemma InsertKeepsCycle(lista: seq<seq<nat>>, c: seq<nat>, v: nat, i: nat)
    requires SymmetricLists(lista) && CycleAdjacent(lista, c) && Fits(lista, c, v, i)
    ensures CycleAdjacent(lista, c[..i + 1] + [v] + c[i + 1..])
  {
    var w := Next(c, i);
    assert v in ListNeighbours(lista, w);
    assert w in ListNeighbours(lista, v);
    if i + 1 < |c| {
      InsertInside(lista, c, v, i);
    } else {
      assert c[..i + 1] + [v] + c[i + 1..] == c + [v];
      InsertAtEnd(lista, c, v);
    }
  }

  /** In a complete graph a vertex outside the cycle fits after its first vertex. */
  lemma CompleteNotStuck(lista: seq<seq<nat>>, n: nat, c: seq<nat>, vertices: seq<nat>)
    requires Complete(lista, n) && |c| >= 1 && vertices != []
    requires forall x :: x in c ==> x < n
    requires vertices[0] < n && vertices[0] !in c
    ensures !Stuck(lista, c, vertices)
  {
    assert c[0] in c && Next(c, 0) in c;
    assert Fits(lista, c, vertices[0], 0);
  }

  /** A graph with a Hamiltonian cycle has no vertex without neighbours. */
  lemma HamiltonianNoIsolated(lista: seq<seq<nat>>, n: nat, r: seq<nat>, x: nat)
    requires HamiltonianCycle(lista, n, r) && x < n
    ensures ListNeighbours(lista, x) != []
  {
    PermutationFacts(r[..n], n);
    assert x in r[..n];
    var j :| 0 <= j < n && r[..n][j] == x;
    assert r[j + 1] in ListNeighbours(lista, x);
  }

  /**
   * What the main loop keeps: the cycle starts at the seed, the cycle and
   * the remaining vertices together are the input order rearranged,
   * `visitado` is the set of cycle vertices, and in an undirected graph the
   * cycle is a cycle of edges.
   */
  ghost predicate LoopState(lista: seq<seq<nat>>, n: nat, order: seq<nat>, ciclo: seq<nat>, vertices: seq<nat>, visitado: set<nat>)
    requires n >= 1 && |order| == n
  {
    |ciclo| >= 1 && ciclo[0] == order[n - 1] &&
    multiset(ciclo) + multiset(vertices) == multiset(order) &&
    (forall x :: x in visitado <==> x in ciclo) && |visitado| == |ciclo| &&
    (SymmetricLists(lista) ==> CycleAdjacent(lista, ciclo))
  }

  /** The cycle and the remaining vertices split 0..n-1 between them. */
  lemma SplitFacts(n: nat, order: seq<nat>, ciclo: seq<nat>, vertices: seq<nat>)
    requires IsPermutation(order, n) && multiset(ciclo) + multiset(vertices) == multiset(order)
    ensures |ciclo| + |vertices| == n
    ensures Distinct(ciclo) && Distinct(vertices)
    ensures forall x :: x in ciclo ==> x < n && x !in vertices
    ensures forall x :: x in vertices ==> x < n
    ensures forall x: nat :: x < n && x !in ciclo ==> x in vertices
  {
    var both := ciclo + vertices;
    assert multiset(both) == multiset(order);
    PermutationFacts(both, n);
    DistinctConcat(ciclo, vertices);
    assert forall x :: x in ciclo ==> x in both;
    assert forall x :: x in vertices ==> x in both;
    forall x: nat | x < n && x !in ciclo ensures x in vertices {
      assert x in both;
    }
  }

  lemma InsertMultiset(c: seq<nat>, i: nat, v: nat)
    requires i < |c|
    ensures multiset(c[..i + 1] + [v] + c[i + 1..]) == multiset(c) + multiset{v}
  {
    assert c == c[..i + 1] + c[i + 1..];
  }

  lemma RemoveMultiset(s: seq<nat>, k: nat)
    requires k < |s|
    ensures multiset(s[..k] + s[k + 1..]) + multiset{s[k]} == multiset(s)
  {
    assert s == s[..k] + [s[k]] + s[k + 1..];
  }

  /** A remaining vertex is not on the cycle. */
  lemma OutsideCycle(n: nat, order: seq<nat>, ciclo: seq<nat>, vertices: seq<nat>, v: nat)
    requires IsPermutation(order, n) && multiset(ciclo) + multiset(vertices) == multiset(order)
    requires v in vertices
    ensures v !in ciclo
  {
    SplitFacts(n, order, ciclo, vertices);
  }

  /**
   * Moving a remaining vertex into the cycle keeps the cycle and the remaining
   * vertices a split of `order`, and the marked set the set of cycle vertices.
   */
  lemma InsertCounts(n: nat, order: seq<nat>, ciclo: seq<nat>, vertices: seq<nat>, visitado: set<nat>, k: nat, i: nat)
    requires IsPermutation(order, n) && multiset(ciclo) + multiset(vertices) == multiset(order)
    requires (forall x :: x in visitado <==> x in ciclo) && |visitado| == |ciclo|
    requires k < |vertices| && i < |ciclo|
    ensures var v := vertices[k];
      var ciclo', vertices' := ciclo[..i + 1] + [v] + ciclo[i + 1..], vertices[..k] + vertices[k + 1..];
      multiset(ciclo') + multiset(vertices') == multiset(order) &&
      (forall x :: x in visitado + {v} <==> x in ciclo') && |visitado + {v}| == |ciclo'|
  {
    var v := vertices[k];
    var ciclo' := ciclo[..i + 1] + [v] + ciclo[i + 1..];
    assert v in vertices;
    OutsideCycle(n, order, ciclo, vertices, v);
    InsertMultiset(ciclo, i, v);
    RemoveMultiset(vertices, k);
    assert forall x :: x in ciclo' <==> x in multiset(ciclo) + multiset{v};
  }

  /** An inserting pass keeps the loop state. */
  lemma InsertStep(lista: seq<seq<nat>>, n: nat, order: seq<nat>, ciclo: seq<nat>, vertices: seq<nat>, visitado: set<nat>, k: nat, i: nat)
    requires n >= 1 && IsPermutation(order, n) && |order| == n
    requires LoopState(lista, n, order, ciclo, vertices, visitado)
    requires k < |vertices| && Fits(lista, ciclo, vertices[k], i)
    ensures LoopState(lista, n, order, ciclo[..i + 1] + [vertices[k]] + ciclo[i + 1..],
                      vertices[..k] + vertices[k + 1..], visitado + {vertices[k]})
  {
    InsertCounts(n, order, ciclo, vertices, visitado, k, i);
    if SymmetricLists(lista) {
      InsertKeepsCycle(lista, ciclo, vertices[k], i);
    }
  }

  /** In a complete graph on at least two vertices, a cycle through all of them closes. */
  lemma CompleteCloses(lista: seq<seq<nat>>, n: nat, ciclo: seq<nat>)
    requires Complete(lista, n) && n >= 2 && |ciclo| == n && Distinct(ciclo)
    requires forall x :: x in ciclo ==> x < n
    ensures ciclo[0] in ListNeighbours(lista, ciclo[n - 1])
  {
    assert ciclo[0] in ciclo && ciclo[n - 1] in ciclo;
  }

  /** When the state is stuck, no vertex outside the cycle fits anywhere in it. */
  lemma StuckOutside(lista: seq<seq<nat>>, n: nat, ciclo: seq<nat>, vertices: seq<nat>)
    requires Stuck(lista, ciclo, vertices)
    requires forall x: nat :: x < n && x !in ciclo ==> x in vertices
    ensures forall v, i :: 0 <= v < n && v !in ciclo && 0 <= i < |ciclo| ==> !Fits(lista, ciclo, v, i)
  {
    forall v, i | 0 <= v < n && v !in ciclo && 0 <= i < |ciclo| ensures !Fits(lista, ciclo, v, i) {
      var k :| 0 <= k < |vertices| && vertices[k] == v;
    }
  }

  /**
   * A closed cycle through all n vertices, returned with its first vertex
   * repeated at the end, lists each vertex once; in an undirected graph it
   * is a Hamiltonian cycle, so no vertex is isolated.
   */
  lemma ClosedCycle(lista: seq<seq<nat>>, n: nat, order: seq<nat>, ciclo: seq<nat>, vertices: seq<nat>, visitado: set<nat>, r: seq<nat>)
    requires n >= 1 && |order| == n && IsPermutation(order, n)
    requires LoopState(lista, n, order, ciclo, vertices, visitado)
    requires |ciclo| == n && ciclo[0] in ListNeighbours(lista, ciclo[n - 1])
    requires r == ciclo + [ciclo[0]]
    ensures |r| == n + 1 && r[n] == r[0] && IsPermutation(r[..n], n)
    ensures SymmetricLists(lista) ==> HamiltonianCycle(lista, n, r)
    ensures SymmetricLists(lista) ==> forall x :: 0 <= x < n ==> ListNeighbours(lista, x) != []
  {
    SplitFacts(n, order, ciclo, vertices);
    assert vertices == [];
    assert r[..n] == ciclo;
    if SymmetricLists(lista) {
      assert forall j :: 0 <= j < n ==> r[j] == ciclo[j];
      assert HamiltonianCycle(lista, n, r);
      forall x | 0 <= x < n ensures ListNeighbours(lista, x) != [] {
        HamiltonianNoIsolated(lista, n, r, x);
      }
    }
  }

  /**
   * The insertion loop of the heuristic: passes run while some vertex is still
   * outside the cycle and fewer than `maxTentativas` passes have failed. It ends
   * with the cycle grown so far and the vertices still left out.
   */
  method Grow(lista: seq<seq<nat>>, n: nat, order: seq<nat>, maxTentativas: int)
    returns (ciclo: seq<nat>, vertices: seq<nat>, visitado: set<nat>, tentativas: int, ghost passes: nat)
    requires n >= 1 && |order| == n && IsPermutation(order, n)
    ensures LoopState(lista, n, order, ciclo, vertices, visitado)
    ensures |visitado| >= n || tentativas >= maxTentativas
    ensures 0 <= tentativas <= (if maxTentativas > 0 then maxTentativas else 0)
    ensures tentativas > 0 ==> Stuck(lista, ciclo, vertices)
    ensures Complete(lista, n) && n >= 2 ==> tentativas == 0
    ensures passes == |ciclo| - 1 + tentativas
  {
    PermutationFacts(order, n);
    vertices := order[..n - 1];
    ciclo := [order[n - 1]];
    visitado := {order[n - 1]};
    assert order == vertices + ciclo;
    tentativas := 0;
    ghost var budget := if maxTentativas > 0 then maxTentativas else 0;
    passes := 0;
    while |visitado| < n && tentativas < maxTentativas
      invariant LoopState(lista, n, order, ciclo, vertices, visitado)
      invariant 0 <= tentativas <= budget
      invariant tentativas > 0 ==> Stuck(lista, ciclo, vertices)
      invariant Complete(lista, n) && n >= 2 ==> tentativas == 0
      invariant passes == |ciclo| - 1 + tentativas
      decreases |vertices|, maxTentativas - tentativas
    {
      SplitFacts(n, order, ciclo, vertices);
      var inseriu;
      ghost var k, i;
      ghost var ciclo0, vertices0, visitado0 := ciclo, vertices, visitado;
      if Complete(lista, n) && n >= 2 {
        assert vertices[0] in vertices;
        CompleteNotStuck(lista, n, ciclo, vertices);
      }
      inseriu, ciclo, vertices, visitado, k, i := InsertionPass(lista, ciclo, vertices, visitado);
      passes := passes + 1;
      if inseriu {
        InsertStep(lista, n, order, ciclo0, vertices0, visitado0, k, i);
      } else {
        tentativas := tentativas + 1;
      }
    }
  }

  /**
   * `algoritmo_valiant`: seed the cycle with the last vertex of `order`, then
   * run insertion passes while some vertex is outside the cycle and fewer
   * than `maxTentativas` passes have failed; succeed when the cycle holds
   * all n vertices and its last vertex is adjacent to its first, returning
   * the closed cycle, and otherwise return the partial cycle. `passes`
   * counts the passes made.
   */
  method Valiant(lista: seq<seq<nat>>, n: nat, order: seq<nat>, maxTentativas: int := 100)
    returns (ok: bool, r: seq<nat>, ghost passes: nat)
    requires n >= 1 && |order| == n && IsPermutation(order, n)
    ensures r != [] && r[0] == order[n - 1]
    ensures ok ==>
      |r| == n + 1 && r[n] == r[0] && IsPermutation(r[..n], n) && r[0] in ListNeighbours(lista, r[n - 1])
    ensures ok && SymmetricLists(lista) ==> HamiltonianCycle(lista, n, r)
    ensures !ok ==>
      Distinct(r) && |r| <= n && (forall x :: x in r ==> x < n) &&
      !(|r| == n && r[0] in ListNeighbours(lista, r[n - 1]))
    ensures !ok && SymmetricLists(lista) ==> CycleAdjacent(lista, r)
    ensures !ok && SymmetricLists(lista) && n >= 2 ==> |r| < n
    ensures !ok && maxTentativas > 0 ==>
      forall v, i :: 0 <= v < n && v !in r && 0 <= i < |r| ==> !Fits(lista, r, v, i)
    ensures Complete(lista, n) && n >= 2 && maxTentativas >= 1 ==> ok
    ensures SymmetricLists(lista) && (exists x :: 0 <= x < n && ListNeighbours(lista, x) == []) ==> !ok
    ensures passes <= n - 1 + (if maxTentativas > 0 then maxTentativas else 0)
  {
    var ciclo, vertices, visitado, tentativas;
    ciclo, vertices, visitado, tentativas, passes := Grow(lista, n, order, maxTentativas);
    SplitFacts(n, order, ciclo, vertices);
    if Complete(lista, n) && n >= 2 && maxTentativas >= 1 {
      CompleteCloses(lista, n, ciclo);
    }
    if |ciclo| < n && maxTentativas > 0 {
      StuckOutside(lista, n, ciclo, vertices);
    }
    if |ciclo| == n && ciclo[0] in ListNeighbours(lista, ciclo[|ciclo| - 1]) {
      ok, r := true, ciclo + [ciclo[0]];
      ClosedCycle(lista, n, order, ciclo, vertices, visitado, r);
    } else {
      ok, r := false, ciclo;
    }
  }
}
