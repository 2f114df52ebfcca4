/**
 * Breadth-first and depth-first search from one source. Each fills the three
 * lists `visitado`, `pai` and `nivel` of length n and hands them back instead
 * of writing them to a file.
 */
module Traversals {
  import opened Seqs
  import opened Graphs
  import opened Walks

  /**
   * The vertices of `vs` unmarked in `visitado`, each once, in the order of
   * their first occurrence in `vs`.
   */
  function FreshIn(vs: seq<nat>, visitado: seq<bool>): (r: seq<nat>)
    ensures forall x :: x in r <==> x in vs && x < |visitado| && !visitado[x]
    ensures Distinct(r)
  {
    if vs == [] then []
    else
      var front, x := vs[..|vs| - 1], vs[|vs| - 1];
      assert vs == front + [x];
      var r := FreshIn(front, visitado);
      if x < |visitado| && !visitado[x] && x !in front then
        DistinctSnoc(r, x);
        r + [x]
      else r
  }

  /** One more vertex of `vs` is enqueued exactly when it is not yet marked. */
  lemma FreshStep(front: seq<nat>, x: nat, visitado: seq<bool>, novos: seq<nat>, visitado': seq<bool>)
    requires x < |visitado| == |visitado'| && novos == FreshIn(front, visitado)
    requires forall y :: 0 <= y < |visitado| ==> (visitado'[y] <==> visitado[y] || y in novos)
    ensures FreshIn(front + [x], visitado) == if visitado'[x] then novos else novos + [x]
  {
    assert (front + [x])[..|front|] == front;
  }

  /**
   * The inner loop of breadth-first search after the neighbours `vs` of
   * `atual`: the tree is kept, entries marked before are unchanged, and the
   * newly marked vertices are `novos`, the fresh ones of `vs` in order, each
   * with parent `atual` one level below it.
   */
  ghost predicate Visiting(g: Graph, inicio: nat, visitado: seq<bool>, pai: seq<int>, nivel: seq<int>, atual: nat,
                           vs: seq<nat>, visitado': seq<bool>, pai': seq<int>, nivel': seq<int>, novos: seq<nat>)
    requires g.Valid() && atual < |nivel|
  {
    ParentTree(g, inicio, visitado', pai', nivel') &&
    Keeps(g.n, visitado, pai, nivel, visitado', pai', nivel') &&
    novos == FreshIn(vs, visitado) &&
    (forall x :: 0 <= x < g.n ==> (visitado'[x] <==> visitado[x] || x in novos)) &&
    forall x :: x in novos ==> x < g.n && pai'[x] == atual && nivel'[x] == nivel[atual] + 1
  }

  /** Meeting an unmarked neighbour marks it and enqueues it. */
  lemma VisitMark(g: Graph, inicio: nat, visitado: seq<bool>, pai: seq<int>, nivel: seq<int>, atual: nat,
                  vs: seq<nat>, visitado': seq<bool>, pai': seq<int>, nivel': seq<int>, novos: seq<nat>, x: nat)
    requires g.Valid() && atual < g.n && |visitado| == |nivel| == g.n && visitado[atual]
    requires Visiting(g, inicio, visitado, pai, nivel, atual, vs, visitado', pai', nivel', novos)
    requires x in Neighbors(g, atual) && !visitado'[x]
    ensures Visiting(g, inicio, visitado, pai, nivel, atual, vs + [x],
                     visitado'[x := true], pai'[x := atual], nivel'[x := nivel'[atual] + 1], novos + [x])
  {
    TreeExtend(g, inicio, visitado', pai', nivel', atual, x);
    FreshStep(vs, x, visitado, novos, visitado');
  }

  /** Meeting a marked neighbour changes nothing. */
  lemma VisitSkip(g: Graph, inicio: nat, visitado: seq<bool>, pai: seq<int>, nivel: seq<int>, atual: nat,
                  vs: seq<nat>, visitado': seq<bool>, pai': seq<int>, nivel': seq<int>, novos: seq<nat>, x: nat)
    requires g.Valid() && atual < g.n && |nivel| == g.n
    requires Visiting(g, inicio, visitado, pai, nivel, atual, vs, visitado', pai', nivel', novos)
    requires x < g.n && visitado'[x]
    ensures Visiting(g, inicio, visitado, pai, nivel, atual, vs + [x], visitado', pai', nivel', novos)
  {
    FreshStep(vs, x, visitado, novos, visitado');
  }

  /** Once every neighbour has been met, all of them are marked and the enqueued ones are fresh. */
  lemma VisitDone(g: Graph, inicio: nat, visitado: seq<bool>, pai: seq<int>, nivel: seq<int>, atual: nat,
                  visitado': seq<bool>, pai': seq<int>, nivel': seq<int>, novos: seq<nat>)
    requires g.Valid() && atual < g.n && |nivel| == g.n
    requires Visiting(g, inicio, visitado, pai, nivel, atual, Neighbors(g, atual), visitado', pai', nivel', novos)
    ensures forall x :: x in novos ==> x in Neighbors(g, atual) && !visitado[x]
    ensures Distinct(novos)
    ensures forall y :: y in Neighbors(g, atual) ==> visitado'[y]
  {
    forall y | y in Neighbors(g, atual) ensures visitado'[y] {
      if !visitado[y] {
        assert y in novos;
      }
    }
  }

  /**
   * The inner loop of breadth-first search: walk the neighbours of `atual` in
   * adjacency order and mark, parent and level every one not yet marked. The
   * newly marked vertices, in the order they were met, are returned as `novos`
   * for the caller to enqueue.
   */
  method VisitNeighbours(g: Graph, inicio: nat, visitado: seq<bool>, pai: seq<int>, nivel: seq<int>, atual: nat)
    returns (visitado': seq<bool>, pai': seq<int>, nivel': seq<int>, novos: seq<nat>)
    requires g.Valid() && ParentTree(g, inicio, visitado, pai, nivel)
    requires atual < g.n && visitado[atual]
    ensures ParentTree(g, inicio, visitado', pai', nivel')
    ensures forall x :: 0 <= x < g.n ==> (visitado'[x] <==> visitado[x] || x in novos)
    ensures forall x :: x in novos ==> x < g.n && !visitado[x] && nivel'[x] == nivel[atual] + 1
    ensures forall x :: 0 <= x < g.n && visitado[x] ==> nivel'[x] == nivel[x]
    ensures forall x :: x in novos ==> x in Neighbors(g, atual) && pai'[x] == atual
    ensures Keeps(g.n, visitado, pai, nivel, visitado', pai', nivel')
    ensures novos == FreshIn(Neighbors(g, atual), visitado)
    ensures Distinct(novos)
    ensures forall y :: y in Neighbors(g, atual) ==> visitado'[y]
  {
    visitado', pai', nivel', novos := visitado, pai, nivel, [];
    var vizinhos := Neighbors(g, atual);
    for j := 0 to |vizinhos|
      invariant Visiting(g, inicio, visitado, pai, nivel, atual, vizinhos[..j], visitado', pai', nivel', novos)
    {
      var viz := vizinhos[j];
      assert viz in vizinhos && vizinhos[..j + 1] == vizinhos[..j] + [viz];
      if !visitado'[viz] {
        VisitMark(g, inicio, visitado, pai, nivel, atual, vizinhos[..j], visitado', pai', nivel', novos, viz);
        visitado' := visitado'[viz := true];
        pai' := pai'[viz := atual];
        nivel' := nivel'[viz := nivel'[atual] + 1];
        novos := novos + [viz];
      } else {
        VisitSkip(g, inicio, visitado, pai, nivel, atual, vizinhos[..j], visitado', pai', nivel', novos, viz);
      }
    }
    assert vizinhos[..|vizinhos|] == vizinhos;
    VisitDone(g, inicio, visitado, pai, nivel, atual, visitado', pai', nivel', novos);
  }

  /**
   * The state of breadth-first search between two dequeues. `order` lists
   * every vertex ever enqueued; its first `head` entries have been dequeued
   * and expanded and the rest is the queue. Levels never decrease along
   * `order` and none exceeds the front's level by more than one.
   */
  ghost predicate QueueState(g: Graph, s: nat, visitado: seq<bool>, pai: seq<int>, nivel: seq<int>, order: seq<nat>, head: nat)
    requires g.Valid()
  {
    head <= |order| &&
    (forall k :: 0 <= k < |order| ==> order[k] < g.n) &&
    Distinct(order) &&
    ParentTree(g, s, visitado, pai, nivel) &&
    (forall x :: 0 <= x < g.n ==> (visitado[x] <==> x in order)) &&
    (forall i, j :: 0 <= i < j < |order| ==> nivel[order[i]] <= nivel[order[j]]) &&
    (head < |order| ==> forall k :: 0 <= k < |order| ==> nivel[order[k]] <= nivel[order[head]] + 1) &&
    forall k, y :: 0 <= k < head && y in Neighbors(g, order[k]) ==>
      visitado[y] && nivel[y] <= nivel[order[k]] + 1
  }

  /** Dequeuing the front and enqueueing the neighbours it newly marks keeps the state. */
  lemma BfsStep(g: Graph, s: nat, visitado0: seq<bool>, pai0: seq<int>, nivel0: seq<int>, order0: seq<nat>, head: nat,
                visitado: seq<bool>, pai: seq<int>, nivel: seq<int>, novos: seq<nat>)
    requires g.Valid() && QueueState(g, s, visitado0, pai0, nivel0, order0, head) && head < |order0|
    requires ParentTree(g, s, visitado, pai, nivel)
    requires forall x :: 0 <= x < g.n ==> (visitado[x] <==> visitado0[x] || x in novos)
    requires forall x :: x in novos ==> x < g.n && !visitado0[x] && nivel[x] == nivel0[order0[head]] + 1
    requires Distinct(novos)
    requires forall x :: 0 <= x < g.n && visitado0[x] ==> nivel[x] == nivel0[x]
    requires forall y :: y in Neighbors(g, order0[head]) ==> visitado[y]
    ensures QueueState(g, s, visitado, pai, nivel, order0 + novos, head + 1)
  {
    var order := order0 + novos;
    assert forall k :: 0 <= k < |order0| ==> order[k] == order0[k] && visitado0[order0[k]];
    assert forall k :: |order0| <= k < |order| ==> order[k] in novos;
    StepLevels(g, s, visitado0, pai0, nivel0, order0, head, nivel, novos);
    StepExpanded(g, s, visitado0, pai0, nivel0, order0, head, visitado, nivel, novos);
    StepDistinct(g, s, visitado0, pai0, nivel0, order0, head, novos);
  }

  /** Only unmarked vertices are enqueued, so no vertex enters the queue twice. */
  lemma StepDistinct(g: Graph, s: nat, visitado0: seq<bool>, pai0: seq<int>, nivel0: seq<int>, order0: seq<nat>, head: nat,
                     novos: seq<nat>)
    requires g.Valid() && QueueState(g, s, visitado0, pai0, nivel0, order0, head)
    requires Distinct(novos) && forall x :: x in novos ==> x < g.n && !visitado0[x]
    ensures Distinct(order0 + novos)
  {
    forall x | x in order0 ensures x !in novos {
      var k :| 0 <= k < |order0| && order0[k] == x;
    }
    DistinctConcat(order0, novos);
  }

  /** The levels along the queue stay sorted and within one of the new front. */
  lemma StepLevels(g: Graph, s: nat, visitado0: seq<bool>, pai0: seq<int>, nivel0: seq<int>, order0: seq<nat>, head: nat,
                   nivel: seq<int>, novos: seq<nat>)
    requires g.Valid() && QueueState(g, s, visitado0, pai0, nivel0, order0, head) && head < |order0|
    requires |nivel| == g.n && forall k :: 0 <= k < |order0| ==> order0[k] < g.n
    requires forall x :: x in novos ==> x < g.n && nivel[x] == nivel0[order0[head]] + 1
    requires forall x :: 0 <= x < g.n && visitado0[x] ==> nivel[x] == nivel0[x]
    ensures var order := order0 + novos;
      (forall k :: 0 <= k < |order| ==> order[k] < g.n) &&
      (forall i, j :: 0 <= i < j < |order| ==> nivel[order[i]] <= nivel[order[j]]) &&
      (head + 1 < |order| ==> forall k :: 0 <= k < |order| ==> nivel[order[k]] <= nivel[order[head + 1]] + 1)
  {
    var order := order0 + novos;
    var top := nivel0[order0[head]] + 1;
    assert forall k :: 0 <= k < |order0| ==> order[k] == order0[k] && nivel[order[k]] == nivel0[order0[k]];
    assert forall k :: |order0| <= k < |order| ==> order[k] in novos && nivel[order[k]] == top;
    assert forall k :: 0 <= k < |order| ==> nivel0[order0[head]] <= nivel[order[k]] || k < head;
  }

  /** The dequeued front joins the expanded vertices: its neighbours are marked, one level down at most. */
  lemma StepExpanded(g: Graph, s: nat, visitado0: seq<bool>, pai0: seq<int>, nivel0: seq<int>, order0: seq<nat>, head: nat,
                     visitado: seq<bool>, nivel: seq<int>, novos: seq<nat>)
    requires g.Valid() && QueueState(g, s, visitado0, pai0, nivel0, order0, head) && head < |order0|
    requires |visitado| == |nivel| == g.n
    requires forall x :: 0 <= x < g.n ==> (visitado[x] <==> visitado0[x] || x in novos)
    requires forall x :: x in novos ==> x < g.n && nivel[x] == nivel0[order0[head]] + 1
    requires forall x :: 0 <= x < g.n && visitado0[x] ==> nivel[x] == nivel0[x]
    requires forall y :: y in Neighbors(g, order0[head]) ==> visitado[y]
    ensures var order := order0 + novos;
      forall k, y :: 0 <= k < head + 1 && y in Neighbors(g, order[k]) ==>
        visitado[y] && nivel[y] <= nivel[order[k]] + 1
  {
    var order := order0 + novos;
    assert forall k :: 0 <= k < |order0| ==> order[k] == order0[k] && visitado0[order0[k]];
    forall k, y | 0 <= k < head + 1 && y in Neighbors(g, order[k])
      ensures visitado[y] && nivel[y] <= nivel[order[k]] + 1
    {
      if k < head {
        assert visitado0[y] && nivel0[y] <= nivel0[order0[k]] + 1;
      } else if y !in novos {
        var i :| 0 <= i < |order0| && order0[i] == y;
      }
    }
  }

  /**
   * One round of breadth-first search: dequeue the front of `fila`, mark its
   * unmarked neighbours with the front as parent, and enqueue them as `novos`.
   * Either some vertex is newly marked or the queue got shorter.
   */
  method BfsRound(g: Graph, inicio: nat, visitado: seq<bool>, pai: seq<int>, nivel: seq<int>, fila: seq<nat>,
                  ghost order: seq<nat>, ghost head: nat)
    returns (visitado': seq<bool>, pai': seq<int>, nivel': seq<int>, fila': seq<nat>, novos: seq<nat>,
             ghost order': seq<nat>, ghost head': nat)
    requires g.Valid() && QueueState(g, inicio, visitado, pai, nivel, order, head)
    requires fila == order[head..] && fila != []
    ensures fila' == fila[1..] + novos
    ensures novos == FreshIn(Neighbors(g, fila[0]), visitado)
    ensures Keeps(g.n, visitado, pai, nivel, visitado', pai', nivel')
    ensures forall x :: 0 <= x < g.n ==> (visitado'[x] <==> visitado[x] || x in novos)
    ensures forall x :: x in novos ==>
      x in Neighbors(g, fila[0]) && !visitado[x] && pai'[x] == fila[0] && nivel'[x] == nivel[fila[0]] + 1
    ensures forall y :: y in Neighbors(g, fila[0]) ==> visitado'[y]
    ensures QueueState(g, inicio, visitado', pai', nivel', order', head')
    ensures fila' == order'[head'..]
    ensures head' == head + 1 && |order| <= |order'| && order'[..|order|] == order
    ensures CountFalse(visitado') < CountFalse(visitado) ||
      (CountFalse(visitado') == CountFalse(visitado) && |fila'| < |fila|)
  {
    var atual := fila[0];
    visitado', pai', nivel', novos := VisitNeighbours(g, inicio, visitado, pai, nivel, atual);
    BfsStep(g, inicio, visitado, pai, nivel, order, head, visitado', pai', nivel', novos);
    fila' := fila[1..] + novos;
    order', head' := order + novos, head + 1;
    DequeueEnqueue(order, head, novos);
    SetFlags(visitado, visitado', novos);
  }

  /**
   * Breadth-first search from `inicio` with a FIFO queue `fila`. Every vertex
   * is marked before it is enqueued, so none is enqueued twice. The result is
   * a parent/level tree whose reached vertices are exactly the reachable
   * ones, each at its hop distance from the source. `dequeued` lists the
   * vertices in the order they leave the queue, one per round of the loop:
   * the source first, no vertex twice, hence at most n rounds.
   */
  method Bfs(g: Graph, inicio: nat) returns (visitado: seq<bool>, pai: seq<int>, nivel: seq<int>, ghost dequeued: seq<nat>)
    requires g.Valid() && inicio < g.n
    ensures ParentTree(g, inicio, visitado, pai, nivel)
    ensures forall v :: 0 <= v < g.n ==> (visitado[v] <==> Reachable(g, inicio, v))
    ensures forall v :: 0 <= v < g.n && visitado[v] ==> IsDistance(g, inicio, v, nivel[v])
    ensures dequeued != [] && dequeued[0] == inicio && Distinct(dequeued) && |dequeued| <= g.n
    ensures forall v :: 0 <= v < g.n ==> (visitado[v] <==> v in dequeued)
  {
    visitado := seq(g.n, _ => false)[inicio := true];
    pai := seq(g.n, _ => -1);
    nivel := seq(g.n, _ => -1)[inicio := 0];
    var fila: seq<nat> := [inicio];
    ghost var order: seq<nat> := [inicio];
    ghost var head: nat := 0;
    dequeued := [];
    assert TreeAt(g, inicio, visitado, pai, nivel, inicio);
    while fila != []
      invariant QueueState(g, inicio, visitado, pai, nivel, order, head)
      invariant fila == order[head..]
      invariant |order| >= 1 && order[0] == inicio
      invariant dequeued == order[..head]
      decreases CountFalse(visitado), |fila|
    {
      ghost var order0, head0 := order, head;
      dequeued := dequeued + [fila[0]];
      var novos;
      visitado, pai, nivel, fila, novos, order, head := BfsRound(g, inicio, visitado, pai, nivel, fila, order, head);
      PrefixSnoc(order0, order, head0);
    }
    assert head == |order|;
    BfsDone(g, inicio, visitado, pai, nivel, order);
    BfsDequeued(g, inicio, visitado, pai, nivel, order, head);
  }

  /** With the queue empty, the dequeue order is the whole enqueue order. */
  lemma BfsDequeued(g: Graph, s: nat, visitado: seq<bool>, pai: seq<int>, nivel: seq<int>, order: seq<nat>, head: nat)
    requires g.Valid() && QueueState(g, s, visitado, pai, nivel, order, head)
    requires order[head..] == [] && |order| >= 1 && order[0] == s
    ensures var dequeued := order[..head];
      dequeued != [] && dequeued[0] == s && Distinct(dequeued) && |dequeued| <= g.n &&
      forall v :: 0 <= v < g.n ==> (visitado[v] <==> v in dequeued)
  {
    assert order[..head] == order;
    DistinctBound(order, g.n);
  }

  /**
   * Once the queue is empty every marked vertex has been expanded, so the marks
   * are closed under edges and the tree levels are the distances.
   */
  lemma BfsDone(g: Graph, s: nat, visitado: seq<bool>, pai: seq<int>, nivel: seq<int>, order: seq<nat>)
    requires g.Valid() && QueueState(g, s, visitado, pai, nivel, order, |order|)
    ensures forall v :: 0 <= v < g.n ==> (visitado[v] <==> Reachable(g, s, v))
    ensures forall v :: 0 <= v < g.n && visitado[v] ==> IsDistance(g, s, v, nivel[v])
  {
    forall x, y | 0 <= x < g.n && visitado[x] && y in Neighbors(g, x)
      ensures visitado[y] && nivel[y] <= nivel[x] + 1
    {
      var k :| 0 <= k < |order| && order[k] == x;
    }
    forall v | 0 <= v < g.n
      ensures visitado[v] <==> Reachable(g, s, v)
      ensures visitado[v] ==> IsDistance(g, s, v, nivel[v])
    {
      LevelIsDistance(g, s, visitado, pai, nivel, v);
    }
  }

  /**
   * The recursive `dfs_rec(v, d)`: mark `v` at depth `d`, then visit each
   * neighbour in adjacency order. The three lists are threaded through the
   * calls. Entries of vertices marked before the call are left alone, and
   * every vertex the call marks has all its neighbours marked on return.
   */
  method DfsRec(g: Graph, s: nat, v: nat, d: int, visitado: seq<bool>, pai: seq<int>, nivel: seq<int>)
    returns (visitado': seq<bool>, pai': seq<int>, nivel': seq<int>)
    requires g.Valid() && TreeBut(g, s, visitado, pai, nivel, v, d)
    ensures ParentTree(g, s, visitado', pai', nivel')
    ensures visitado'[v] && pai'[v] == pai[v] && nivel'[v] == d
    ensures Keeps(g.n, visitado, pai, nivel, visitado', pai', nivel')
    ensures ClosedOutside(g, visitado, visitado')
    ensures ReachedFrom(g, v, visitado, visitado')
    ensures forall x :: 0 <= x < g.n ==> (visitado'[x] && !visitado[x] <==> WhiteReach(g, visitado, v, x))
    ensures Subtree(g.n, v, visitado, visitado', pai')
    decreases CountFalse(visitado), 1
  {
    TreeEnter(g, s, visitado, pai, nivel, v, d);
    visitado', pai', nivel' := visitado[v := true], pai, nivel[v := d];
    ghost var marked, levels := visitado', nivel';
    CountFalseMonotone(visitado, marked);
    ReachedFromStart(g, v, visitado);
    var vizinhos := Neighbors(g, v);
    for j := 0 to |vizinhos|
      invariant DfsLoop(g, s, vizinhos, j, marked, pai, levels, visitado', pai', nivel')
      invariant ReachedFrom(g, v, marked, visitado')
      invariant Subtree(g.n, v, marked, visitado', pai')
    {
      ghost var before, paiBefore, nivelBefore := visitado', pai', nivel';
      CountFalseMonotone(marked, visitado');
      visitado', pai', nivel' := VisitChild(g, s, v, d, vizinhos[j], visitado', pai', nivel');
      DfsLoopStep(g, s, vizinhos, j, marked, pai, levels, before, paiBefore, nivelBefore, visitado', pai', nivel');
      ReachedFromTrans(g, v, marked, before, visitado');
      SubtreeTrans(g.n, v, marked, before, paiBefore, nivelBefore, visitado', pai', nivel');
    }
    DfsLoopDone(g, s, v, d, visitado, pai, nivel, vizinhos, visitado', pai', nivel');
    ReachedFromTrans(g, v, visitado, marked, visitado');
    SubtreeTrans(g.n, v, visitado, marked, pai, levels, visitado', pai', nivel');
    forall x | 0 <= x < g.n && WhiteReach(g, visitado, v, x) ensures visitado'[x] && !visitado[x] {
      var p :| WhiteWalk(g, visitado, p) && p[0] == v && p[|p| - 1] == x;
      WhiteWalkMarked(g, visitado, visitado', p);
    }
  }

  /**
   * What the loop of `dfs_rec(v, d)` keeps after the first `j` neighbours: a
   * tree that keeps every entry marked at entry (`marked`, with `v` itself),
   * whose newly marked vertices have their neighbours marked, and in which the
   * neighbours visited so far are marked.
   */
  ghost predicate DfsLoop(g: Graph, s: nat, vizinhos: seq<nat>, j: nat, marked: seq<bool>, pai: seq<int>, nivel: seq<int>,
                          visitado': seq<bool>, pai': seq<int>, nivel': seq<int>)
    requires g.Valid()
  {
    j <= |vizinhos| &&
    ParentTree(g, s, visitado', pai', nivel') &&
    Keeps(g.n, marked, pai, nivel, visitado', pai', nivel') &&
    ClosedOutside(g, marked, visitado') &&
    forall k :: 0 <= k < j ==> vizinhos[k] < g.n && visitado'[vizinhos[k]]
  }

  /** Visiting one more neighbour keeps the loop state. */
  lemma DfsLoopStep(g: Graph, s: nat, vizinhos: seq<nat>, j: nat, marked: seq<bool>, pai: seq<int>, nivel: seq<int>,
                    visitado0: seq<bool>, pai0: seq<int>, nivel0: seq<int>, visitado1: seq<bool>, pai1: seq<int>, nivel1: seq<int>)
    requires g.Valid() && DfsLoop(g, s, vizinhos, j, marked, pai, nivel, visitado0, pai0, nivel0) && j < |vizinhos|
    requires vizinhos[j] < g.n && ParentTree(g, s, visitado1, pai1, nivel1) && visitado1[vizinhos[j]]
    requires Keeps(g.n, visitado0, pai0, nivel0, visitado1, pai1, nivel1)
    requires ClosedOutside(g, visitado0, visitado1)
    ensures DfsLoop(g, s, vizinhos, j + 1, marked, pai, nivel, visitado1, pai1, nivel1)
  {
    KeepsTrans(g.n, marked, pai, nivel, visitado0, pai0, nivel0, visitado1, pai1, nivel1);
    ClosedOutsideTrans(g, marked, visitado0, visitado1);
  }

  /** After the last neighbour, `dfs_rec(v, d)` has made its promises. */
  lemma DfsLoopDone(g: Graph, s: nat, v: nat, d: int, visitado: seq<bool>, pai: seq<int>, nivel: seq<int>,
                    vizinhos: seq<nat>, visitado': seq<bool>, pai': seq<int>, nivel': seq<int>)
    requires g.Valid() && TreeBut(g, s, visitado, pai, nivel, v, d) && vizinhos == Neighbors(g, v)
    requires DfsLoop(g, s, vizinhos, |vizinhos|, visitado[v := true], pai, nivel[v := d], visitado', pai', nivel')
    ensures visitado'[v] && pai'[v] == pai[v] && nivel'[v] == d
    ensures Keeps(g.n, visitado, pai, nivel, visitado', pai', nivel')
    ensures ClosedOutside(g, visitado, visitado')
  {
    var marked := visitado[v := true];
    assert Keeps(g.n, visitado, pai, nivel, marked, pai, nivel[v := d]);
    KeepsTrans(g.n, visitado, pai, nivel, marked, pai, nivel[v := d], visitado', pai', nivel');
    forall y | y in vizinhos ensures visitado'[y] {
      var k :| 0 <= k < |vizinhos| && vizinhos[k] == y;
    }
    ParentCloses(g, visitado, v, visitado');
  }

  /**
   * The body of the loop in `dfs_rec(v, d)` for one neighbour `u`: if `u` is
   * still unmarked, make `v` its parent and recurse on it at depth `d + 1`;
   * otherwise change nothing.
   */
  method VisitChild(g: Graph, s: nat, v: nat, d: int, u: nat, visitado: seq<bool>, pai: seq<int>, nivel: seq<int>)
    returns (visitado': seq<bool>, pai': seq<int>, nivel': seq<int>)
    requires g.Valid() && ParentTree(g, s, visitado, pai, nivel)
    requires v < g.n && visitado[v] && nivel[v] == d && u in Neighbors(g, v)
    ensures ParentTree(g, s, visitado', pai', nivel')
    ensures visitado'[u]
    ensures visitado[u] ==> visitado' == visitado && pai' == pai && nivel' == nivel
    ensures !visitado[u] ==> pai'[u] == v && nivel'[u] == d + 1
    ensures Keeps(g.n, visitado, pai, nivel, visitado', pai', nivel')
    ensures ClosedOutside(g, visitado, visitado')
    ensures ReachedFrom(g, v, visitado, visitado')
    ensures Subtree(g.n, v, visitado, visitado', pai')
    decreases CountFalse(visitado), 2
  {
    visitado', pai', nivel' := visitado, pai, nivel;
    if !visitado[u] {
      TreeAdopt(g, s, visitado, pai, nivel, v, u);
      visitado', pai', nivel' := DfsRec(g, s, u, d + 1, visitado, pai[u := v], nivel);
      ReachedFromEdge(g, v, u, visitado, visitado');
      SubtreeAdopt(g.n, v, u, visitado, visitado', pai');
      assert Keeps(g.n, visitado, pai, nivel, visitado, pai[u := v], nivel);
      KeepsTrans(g.n, visitado, pai, nivel, visitado, pai[u := v], nivel, visitado', pai', nivel');
    }
  }

  /**
   * Depth-first search from `inicio`. The result is a parent/level tree
   * rooted at the source whose reached vertices are exactly the reachable
   * ones; the levels are depths in that tree, not necessarily distances.
   */
  method Dfs(g: Graph, inicio: nat) returns (visitado: seq<bool>, pai: seq<int>, nivel: seq<int>)
    requires g.Valid() && inicio < g.n
    ensures ParentTree(g, inicio, visitado, pai, nivel)
    ensures forall v :: 0 <= v < g.n ==> (visitado[v] <==> Reachable(g, inicio, v))
  {
    visitado := seq(g.n, _ => false);
    pai := seq(g.n, _ => -1);
    nivel := seq(g.n, _ => -1);
    visitado, pai, nivel := DfsRec(g, inicio, inicio, 0, visitado, pai, nivel);
    ClosedTreeReach(g, inicio, visitado, pai, nivel);
  }
}
