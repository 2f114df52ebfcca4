/**
 * Reachability in a graph view, the reference against which the traversals
 * are proved: walks, hop distance, the parent/level tree a traversal records,
 * and vertex sets closed under taking neighbours.
 */
module Walks {
  import opened Graphs

  /** A non-empty sequence of vertices, each one a neighbour of the one before. */
  ghost predicate IsWalk(g: Graph, p: seq<nat>)
    requires g.Valid()
  {
    |p| > 0 &&
    (forall i :: 0 <= i < |p| ==> p[i] < g.n) &&
    forall i :: 0 <= i < |p| - 1 ==> p[i] < g.n && p[i + 1] in Neighbors(g, p[i])
  }

  /** A walk that starts at `s` and ends at `t`; it has |p| - 1 edges. */
  ghost predicate WalkFromTo(g: Graph, p: seq<nat>, s: nat, t: nat)
    requires g.Valid()
  {
    IsWalk(g, p) && p[0] == s && p[|p| - 1] == t
  }

  ghost predicate Reachable(g: Graph, s: nat, t: nat)
    requires g.Valid()
  {
    exists p :: WalkFromTo(g, p, s, t)
  }

  /** `d` is the least number of edges on a walk from `s` to `t`. */
  ghost predicate IsDistance(g: Graph, s: nat, t: nat, d: int)
    requires g.Valid()
  {
    d >= 0 &&
    (exists p :: WalkFromTo(g, p, s, t) && |p| == d + 1) &&
    forall p :: WalkFromTo(g, p, s, t) ==> d + 1 <= |p|
  }

  /**
   * What a traversal from `s` records about vertex `x`: an unreached vertex
   * keeps parent -1 and level -1; the source has parent -1 and level 0; any
   * other reached vertex has a reached parent of which it is a neighbour, one
   * level deeper.
   */
  ghost predicate TreeAt(g: Graph, s: nat, visitado: seq<bool>, pai: seq<int>, nivel: seq<int>, x: nat)
    requires g.Valid()
    requires |visitado| == |pai| == |nivel| == g.n && x < g.n
  {
    if visitado[x] then
      nivel[x] >= 0 &&
      if x == s then pai[x] == -1 && nivel[x] == 0
      else
        0 <= pai[x] < g.n && visitado[pai[x]] && x in Neighbors(g, pai[x]) &&
        nivel[x] == nivel[pai[x]] + 1
    else
      pai[x] == -1 && nivel[x] == -1
  }

  /** The three arrays of a traversal from `s` form a tree rooted at `s`. */
  ghost predicate ParentTree(g: Graph, s: nat, visitado: seq<bool>, pai: seq<int>, nivel: seq<int>)
    requires g.Valid()
  {
    |visitado| == |pai| == |nivel| == g.n && s < g.n && visitado[s] &&
    forall x :: 0 <= x < g.n ==> TreeAt(g, s, visitado, pai, nivel, x)
  }

  /** TreeAt at `z` survives updates that leave `z`'s entries and its parent's mark and level alone. */
  lemma TreeAtKeep(g: Graph, s: nat, visitado: seq<bool>, pai: seq<int>, nivel: seq<int>,
                   visitado': seq<bool>, pai': seq<int>, nivel': seq<int>, z: nat)
    requires g.Valid() && |visitado| == |pai| == |nivel| == |visitado'| == |pai'| == |nivel'| == g.n && z < g.n
    requires TreeAt(g, s, visitado, pai, nivel, z)
    requires visitado'[z] == visitado[z] && pai'[z] == pai[z] && nivel'[z] == nivel[z]
    requires forall w :: 0 <= w < g.n && visitado[w] ==> visitado'[w] && nivel'[w] == nivel[w]
    ensures TreeAt(g, s, visitado', pai', nivel', z)
  {
  }

  /** Reaching an unreached neighbour `y` of a reached vertex `x` extends the tree, with `x` as parent. */
  lemma TreeExtend(g: Graph, s: nat, visitado: seq<bool>, pai: seq<int>, nivel: seq<int>, x: nat, y: nat)
    requires g.Valid() && ParentTree(g, s, visitado, pai, nivel)
    requires x < g.n && visitado[x] && y in Neighbors(g, x) && !visitado[y]
    ensures ParentTree(g, s, visitado[y := true], pai[y := x], nivel[y := nivel[x] + 1])
  {
    var visitado', pai', nivel' := visitado[y := true], pai[y := x], nivel[y := nivel[x] + 1];
    assert TreeAt(g, s, visitado, pai, nivel, x);
    assert TreeAt(g, s, visitado, pai, nivel, y);
    assert forall w :: 0 <= w < g.n && visitado[w] ==> visitado'[w] && nivel'[w] == nivel[w];
    forall z | 0 <= z < g.n ensures TreeAt(g, s, visitado', pai', nivel', z) {
      if z != y {
        assert TreeAt(g, s, visitado, pai, nivel, z);
        TreeAtKeep(g, s, visitado, pai, nivel, visitado', pai', nivel', z);
      }
    }
  }

  /**
   * What a depth-first call on an unmarked vertex `v` may assume: every other
   * vertex satisfies TreeAt, the source is marked unless `v` is the source,
   * and `v` is either the source entered at depth 0 with parent -1, or a
   * neighbour of its marked parent entered one level below it.
   */
  ghost predicate TreeBut(g: Graph, s: nat, visitado: seq<bool>, pai: seq<int>, nivel: seq<int>, v: nat, d: int)
    requires g.Valid()
  {
    |visitado| == |pai| == |nivel| == g.n && s < g.n && v < g.n && !visitado[v] &&
    (visitado[s] || v == s) &&
    (forall x :: 0 <= x < g.n && x != v ==> TreeAt(g, s, visitado, pai, nivel, x)) &&
    if v == s then pai[v] == -1 && d == 0
    else 0 <= pai[v] < g.n && visitado[pai[v]] && v in Neighbors(g, pai[v]) && d == nivel[pai[v]] + 1
  }

  /** Marking `v` at depth `d` completes the tree. */
  lemma TreeEnter(g: Graph, s: nat, visitado: seq<bool>, pai: seq<int>, nivel: seq<int>, v: nat, d: int)
    requires g.Valid() && TreeBut(g, s, visitado, pai, nivel, v, d)
    ensures ParentTree(g, s, visitado[v := true], pai, nivel[v := d])
  {
    var visitado', nivel' := visitado[v := true], nivel[v := d];
    if v != s {
      assert TreeAt(g, s, visitado, pai, nivel, pai[v]);
    }
    assert forall w :: 0 <= w < g.n && visitado[w] ==> visitado'[w] && nivel'[w] == nivel[w];
    forall x | 0 <= x < g.n ensures TreeAt(g, s, visitado', pai, nivel', x) {
      if x != v {
        assert TreeAt(g, s, visitado, pai, nivel, x);
        TreeAtKeep(g, s, visitado, pai, nivel, visitado', pai, nivel', x);
      }
    }
  }

  /**
   * Giving an unmarked neighbour `u` of a marked vertex `p` the parent `p`
   * sets up a depth-first call on `u` one level below `p`.
   */
  lemma TreeAdopt(g: Graph, s: nat, visitado: seq<bool>, pai: seq<int>, nivel: seq<int>, p: nat, u: nat)
    requires g.Valid() && ParentTree(g, s, visitado, pai, nivel)
    requires p < g.n && visitado[p] && u in Neighbors(g, p) && !visitado[u]
    ensures TreeBut(g, s, visitado, pai[u := p], nivel, u, nivel[p] + 1)
  {
    var pai' := pai[u := p];
    forall x | 0 <= x < g.n && x != u ensures TreeAt(g, s, visitado, pai', nivel, x) {
      assert TreeAt(g, s, visitado, pai, nivel, x);
      TreeAtKeep(g, s, visitado, pai, nivel, visitado, pai', nivel, x);
    }
    assert TreeAt(g, s, visitado, pai, nivel, s);
  }

  /** Every vertex marked in `visitado` is still marked, with the same parent and level. */
  ghost predicate Keeps(n: nat, visitado: seq<bool>, pai: seq<int>, nivel: seq<int>,
                        visitado': seq<bool>, pai': seq<int>, nivel': seq<int>)
  {
    |visitado| == |pai| == |nivel| == |visitado'| == |pai'| == |nivel'| == n &&
    forall x :: 0 <= x < n && visitado[x] ==> visitado'[x] && pai'[x] == pai[x] && nivel'[x] == nivel[x]
  }

  lemma KeepsTrans(n: nat, v0: seq<bool>, p0: seq<int>, l0: seq<int>, v1: seq<bool>, p1: seq<int>, l1: seq<int>,
                   v2: seq<bool>, p2: seq<int>, l2: seq<int>)
    requires Keeps(n, v0, p0, l0, v1, p1, l1) && Keeps(n, v1, p1, l1, v2, p2, l2)
    ensures Keeps(n, v0, p0, l0, v2, p2, l2)
  {
  }

  /** Every vertex marked in `visitado` but not in `base` has all its neighbours marked. */
  ghost predicate ClosedOutside(g: Graph, base: seq<bool>, visitado: seq<bool>)
    requires g.Valid()
  {
    |base| == |visitado| == g.n &&
    forall x, y :: 0 <= x < g.n && visitado[x] && !base[x] && y in Neighbors(g, x) ==> visitado[y]
  }

  lemma ClosedOutsideTrans(g: Graph, base: seq<bool>, mid: seq<bool>, visitado: seq<bool>)
    requires g.Valid() && ClosedOutside(g, base, mid) && ClosedOutside(g, mid, visitado)
    requires forall x :: 0 <= x < g.n && mid[x] ==> visitado[x]
    ensures ClosedOutside(g, base, visitado)
  {
    forall x, y | 0 <= x < g.n && visitado[x] && !base[x] && y in Neighbors(g, x) ensures visitado[y] {
      if mid[x] {
        assert mid[y];
      }
    }
  }

  /**
   * A depth-first call marks `v` first and then its neighbours' subtrees:
   * once every neighbour of `v` is marked, every vertex marked since entry
   * has all its neighbours marked.
   */
  lemma ParentCloses(g: Graph, visitado: seq<bool>, v: nat, visitado': seq<bool>)
    requires g.Valid() && |visitado| == g.n && v < g.n
    requires ClosedOutside(g, visitado[v := true], visitado')
    requires forall y :: y in Neighbors(g, v) ==> visitado'[y]
    ensures ClosedOutside(g, visitado, visitado')
  {
  }

  /** A walk that, after its first vertex, meets only vertices unmarked in `base`. */
  ghost predicate WhiteWalk(g: Graph, base: seq<bool>, p: seq<nat>)
    requires g.Valid() && |base| == g.n
  {
    IsWalk(g, p) && forall i :: 1 <= i < |p| ==> !base[p[i]]
  }

  /** `x` is reached from `v` by a walk that, after `v`, meets only vertices unmarked in `base`. */
  ghost predicate WhiteReach(g: Graph, base: seq<bool>, v: nat, x: nat)
    requires g.Valid() && |base| == g.n
  {
    exists p :: WhiteWalk(g, base, p) && p[0] == v && p[|p| - 1] == x
  }

  /**
   * Every vertex marked in `visitado` but not in `base` is reached from `v`
   * through vertices that were unmarked in `base`.
   */
  ghost predicate ReachedFrom(g: Graph, v: nat, base: seq<bool>, visitado: seq<bool>)
    requires g.Valid()
  {
    |base| == |visitado| == g.n &&
    forall x :: 0 <= x < g.n && visitado[x] && !base[x] ==> WhiteReach(g, base, v, x)
  }

  /** Marking `v` alone is reached from `v`. */
  lemma ReachedFromStart(g: Graph, v: nat, base: seq<bool>)
    requires g.Valid() && |base| == g.n && v < g.n
    ensures ReachedFrom(g, v, base, base[v := true])
  {
    assert WhiteWalk(g, base, [v]);
  }

  lemma ReachedFromTrans(g: Graph, v: nat, base: seq<bool>, mid: seq<bool>, visitado: seq<bool>)
    requires g.Valid() && ReachedFrom(g, v, base, mid) && ReachedFrom(g, v, mid, visitado)
    requires forall x :: 0 <= x < g.n && base[x] ==> mid[x]
    ensures ReachedFrom(g, v, base, visitado)
  {
    forall x | 0 <= x < g.n && visitado[x] && !base[x] ensures WhiteReach(g, base, v, x) {
      if !mid[x] {
        var p :| WhiteWalk(g, mid, p) && p[0] == v && p[|p| - 1] == x;
        assert WhiteWalk(g, base, p);
      }
    }
  }

  /** What an unmarked neighbour `u` of `v` reaches through unmarked vertices, `v` reaches too. */
  lemma ReachedFromEdge(g: Graph, v: nat, u: nat, base: seq<bool>, visitado: seq<bool>)
    requires g.Valid() && v < g.n && u in Neighbors(g, v) && ReachedFrom(g, u, base, visitado)
    requires u < g.n && !base[u]
    ensures ReachedFrom(g, v, base, visitado)
  {
    forall x | 0 <= x < g.n && visitado[x] && !base[x] ensures WhiteReach(g, base, v, x) {
      var p :| WhiteWalk(g, base, p) && p[0] == u && p[|p| - 1] == x;
      var q := [v] + p;
      assert forall i :: 1 <= i < |q| ==> q[i] == p[i - 1];
      assert WhiteWalk(g, base, q);
    }
  }

  /**
   * A walk through unmarked vertices from a vertex marked since `base`, when
   * every vertex marked since `base` has its neighbours marked, ends at a
   * vertex marked since `base`.
   */
  lemma {:induction false} WhiteWalkMarked(g: Graph, base: seq<bool>, visitado: seq<bool>, p: seq<nat>)
    requires g.Valid() && ClosedOutside(g, base, visitado) && WhiteWalk(g, base, p)
    requires visitado[p[0]] && !base[p[0]]
    ensures visitado[p[|p| - 1]] && !base[p[|p| - 1]]
  {
    if |p| > 1 {
      var front := p[..|p| - 1];
      WalkFront(g, p);
      assert WhiteWalk(g, base, front);
      WhiteWalkMarked(g, base, visitado, front);
    }
  }

  /**
   * Every vertex marked in `visitado` but not in `base`, other than `v`, has
   * as parent `v` or another such vertex: they form the subtree below `v`.
   */
  ghost predicate Subtree(n: nat, v: nat, base: seq<bool>, visitado: seq<bool>, pai: seq<int>) {
    |base| == |visitado| == |pai| == n &&
    forall x :: 0 <= x < n && visitado[x] && !base[x] && x != v ==>
      0 <= pai[x] < n && (pai[x] == v || (visitado[pai[x]] && !base[pai[x]]))
  }

  lemma SubtreeTrans(n: nat, v: nat, base: seq<bool>, mid: seq<bool>, paiMid: seq<int>, nivelMid: seq<int>,
                     visitado: seq<bool>, pai: seq<int>, nivel: seq<int>)
    requires Subtree(n, v, base, mid, paiMid) && Subtree(n, v, mid, visitado, pai)
    requires Keeps(n, mid, paiMid, nivelMid, visitado, pai, nivel)
    requires forall x :: 0 <= x < n && base[x] ==> mid[x]
    ensures Subtree(n, v, base, visitado, pai)
  {
    forall x | 0 <= x < n && visitado[x] && !base[x] && x != v
      ensures 0 <= pai[x] < n && (pai[x] == v || (visitado[pai[x]] && !base[pai[x]]))
    {
      if mid[x] {
        assert pai[x] == paiMid[x];
      }
    }
  }

  /** The subtree below a child `u` of `v`, with `u` itself, lies in the subtree below `v`. */
  lemma SubtreeAdopt(n: nat, v: nat, u: nat, base: seq<bool>, visitado: seq<bool>, pai: seq<int>)
    requires Subtree(n, u, base, visitado, pai) && v < n && u < n && visitado[u] && !base[u] && pai[u] == v
    ensures Subtree(n, v, base, visitado, pai)
  {
    forall x | 0 <= x < n && visitado[x] && !base[x] && x != v
      ensures 0 <= pai[x] < n && (pai[x] == v || (visitado[pai[x]] && !base[pai[x]]))
    {
      if x != u {
        assert 0 <= pai[x] < n && (pai[x] == u || (visitado[pai[x]] && !base[pai[x]]));
      }
    }
  }

  /** Every neighbour of a member is a member. */
  ghost predicate ClosedUnder(g: Graph, S: set<nat>)
    requires g.Valid()
  {
    forall x, y :: x in S && x < g.n && y in Neighbors(g, x) ==> y in S
  }

  /** Every neighbour of a marked vertex is marked. */
  ghost predicate Closed(g: Graph, visitado: seq<bool>)
    requires g.Valid()
  {
    |visitado| == g.n && forall x, y :: 0 <= x < g.n && visitado[x] && y in Neighbors(g, x) ==> visitado[y]
  }

  /** A marking is closed exactly when the set of marked vertices is. */
  lemma ClosedMarks(g: Graph, visitado: seq<bool>)
    requires g.Valid() && |visitado| == g.n
    ensures Closed(g, visitado) <==> ClosedUnder(g, set x: nat | x < g.n && visitado[x])
  {
    var S := set x: nat | x < g.n && visitado[x];
    if ClosedUnder(g, S) {
      forall x, y | 0 <= x < g.n && visitado[x] && y in Neighbors(g, x) ensures visitado[y] {
        assert x in S;
        assert y in S;
      }
    }
  }

  /** A closed marking stays closed when marks are added whose neighbours are all marked. */
  lemma ClosedGrow(g: Graph, before: seq<bool>, visitado: seq<bool>)
    requires g.Valid() && Closed(g, before) && ClosedOutside(g, before, visitado)
    requires forall x :: 0 <= x < g.n && before[x] ==> visitado[x]
    ensures Closed(g, visitado)
  {
    forall x, y | 0 <= x < g.n && visitado[x] && y in Neighbors(g, x) ensures visitado[y] {
      if before[x] {
        assert before[y];
      }
    }
  }

  lemma ReachableRefl(g: Graph, s: nat)
    requires g.Valid() && s < g.n
    ensures Reachable(g, s, s)
  {
    assert WalkFromTo(g, [s], s, s);
  }

  /** An edge followed by a walk is a walk. */
  lemma ReachablePrepend(g: Graph, x: nat, y: nat, t: nat)
    requires g.Valid() && x < g.n && y in Neighbors(g, x)
    requires Reachable(g, y, t)
    ensures Reachable(g, x, t)
  {
    var p :| WalkFromTo(g, p, y, t);
    var q := [x] + p;
    assert forall i :: 0 < i < |q| ==> q[i] == p[i - 1];
    assert WalkFromTo(g, q, x, t);
  }

  /** Whatever the end of a walk reaches, its start reaches too. */
  lemma {:induction false} WalkThen(g: Graph, p: seq<nat>, c: nat)
    requires g.Valid() && IsWalk(g, p) && Reachable(g, p[|p| - 1], c)
    ensures Reachable(g, p[0], c)
    decreases |p|
  {
    if |p| > 1 {
      var t := p[1..];
      assert forall i :: 0 <= i < |t| ==> t[i] == p[i + 1];
      assert IsWalk(g, t);
      WalkThen(g, t, c);
      ReachablePrepend(g, p[0], p[1], c);
    }
  }

  /** Reachability is transitive. */
  lemma ReachableTrans(g: Graph, a: nat, b: nat, c: nat)
    requires g.Valid()
    requires Reachable(g, a, b) && Reachable(g, b, c)
    ensures Reachable(g, a, c)
  {
    var p :| WalkFromTo(g, p, a, b);
    WalkThen(g, p, c);
  }

  /** In an undirected graph the end of a walk reaches its start: the walk read backwards. */
  lemma {:induction false} WalkBack(g: Graph, p: seq<nat>)
    requires g.Valid() && Symmetric(g) && IsWalk(g, p)
    ensures Reachable(g, p[|p| - 1], p[0])
    decreases |p|
  {
    if |p| == 1 {
      ReachableRefl(g, p[0]);
    } else {
      var front := p[..|p| - 1];
      WalkFront(g, p);
      WalkBack(g, front);
      var u, v := p[|p| - 2], p[|p| - 1];
      assert u in Neighbors(g, v);
      ReachablePrepend(g, v, u, p[0]);
    }
  }

  /** In an undirected graph reachability is symmetric. */
  lemma ReachableSymmetric(g: Graph, a: nat, b: nat)
    requires g.Valid() && Symmetric(g)
    requires Reachable(g, a, b)
    ensures Reachable(g, b, a)
  {
    var p :| WalkFromTo(g, p, a, b);
    WalkBack(g, p);
  }

  /** Dropping the last vertex of a walk of two or more vertices leaves a walk, ending at a neighbour's predecessor. */
  lemma WalkFront(g: Graph, p: seq<nat>)
    requires g.Valid() && IsWalk(g, p) && |p| > 1
    ensures IsWalk(g, p[..|p| - 1])
    ensures p[|p| - 2] < g.n && p[|p| - 1] in Neighbors(g, p[|p| - 2])
  {
    var front := p[..|p| - 1];
    assert forall i :: 0 <= i < |front| ==> front[i] == p[i];
  }

  /** A walk that starts inside a neighbour-closed set never leaves it. */
  lemma {:induction false} ClosedWalk(g: Graph, S: set<nat>, p: seq<nat>)
    requires g.Valid() && ClosedUnder(g, S)
    requires IsWalk(g, p) && p[0] in S
    ensures p[|p| - 1] in S
  {
    if |p| > 1 {
      WalkFront(g, p);
      ClosedWalk(g, S, p[..|p| - 1]);
    }
  }

  /** Everything reachable from a member of a neighbour-closed set is a member. */
  lemma ClosedReach(g: Graph, S: set<nat>, s: nat, t: nat)
    requires g.Valid() && ClosedUnder(g, S)
    requires s in S && Reachable(g, s, t)
    ensures t in S
  {
    var p :| WalkFromTo(g, p, s, t);
    ClosedWalk(g, S, p);
  }

  /**
   * Following parents from a reached vertex leads back to the source in
   * exactly `nivel[v]` steps: reached vertices are reachable, by a walk of
   * `nivel[v]` edges.
   */
  lemma {:induction false} TreeWalk(g: Graph, s: nat, visitado: seq<bool>, pai: seq<int>, nivel: seq<int>, v: nat)
    requires g.Valid() && ParentTree(g, s, visitado, pai, nivel)
    requires v < g.n && visitado[v]
    ensures exists p :: WalkFromTo(g, p, s, v) && |p| == nivel[v] + 1
    decreases nivel[v]
  {
    assert TreeAt(g, s, visitado, pai, nivel, v);
    if v == s {
      assert WalkFromTo(g, [s], s, s);
    } else {
      var u: nat := pai[v];
      assert TreeAt(g, s, visitado, pai, nivel, u);
      TreeWalk(g, s, visitado, pai, nivel, u);
      var p :| WalkFromTo(g, p, s, u) && |p| == nivel[u] + 1;
      WalkSnoc(g, p, s, u, v);
    }
  }

  /** A walk to `u` followed by an edge to `v` is a walk to `v`, one vertex longer. */
  lemma WalkSnoc(g: Graph, p: seq<nat>, s: nat, u: nat, v: nat)
    requires g.Valid() && WalkFromTo(g, p, s, u) && u < g.n && v in Neighbors(g, u)
    ensures WalkFromTo(g, p + [v], s, v) && |p + [v]| == |p| + 1
  {
    var q := p + [v];
    assert forall i :: 0 <= i < |p| ==> q[i] == p[i];
  }

  /**
   * If every neighbour of a marked vertex is marked at most one level deeper,
   * then every walk from a marked vertex ends at a marked vertex whose level
   * exceeds the start's by at most the walk's edge count.
   */
  lemma {:induction false} LevelBound(g: Graph, visitado: seq<bool>, nivel: seq<int>, p: seq<nat>)
    requires g.Valid() && |visitado| == |nivel| == g.n
    requires forall x, y :: 0 <= x < g.n && visitado[x] && y in Neighbors(g, x) ==>
      visitado[y] && nivel[y] <= nivel[x] + 1
    requires IsWalk(g, p) && visitado[p[0]]
    ensures visitado[p[|p| - 1]] && nivel[p[|p| - 1]] <= nivel[p[0]] + |p| - 1
  {
    if |p| > 1 {
      WalkFront(g, p);
      LevelBound(g, visitado, nivel, p[..|p| - 1]);
    }
  }

  /**
   * A traversal whose reached set is closed under neighbours has reached
   * exactly the vertices reachable from its source.
   */
  lemma ClosedTreeReach(g: Graph, s: nat, visitado: seq<bool>, pai: seq<int>, nivel: seq<int>)
    requires g.Valid() && ParentTree(g, s, visitado, pai, nivel)
    requires forall x, y :: 0 <= x < g.n && visitado[x] && y in Neighbors(g, x) ==> visitado[y]
    ensures forall v :: 0 <= v < g.n ==> (visitado[v] <==> Reachable(g, s, v))
  {
    var S := set x | 0 <= x < g.n && visitado[x];
    forall v | 0 <= v < g.n ensures visitado[v] <==> Reachable(g, s, v) {
      if visitado[v] {
        TreeWalk(g, s, visitado, pai, nivel, v);
      }
      if Reachable(g, s, v) {
        ClosedReach(g, S, s, v);
      }
    }
  }

  /**
   * In a traversal tree where every neighbour of a reached vertex is reached
   * at most one level deeper, `v` is reached exactly when it is reachable,
   * and then its level is its hop distance from the source.
   */
  lemma LevelIsDistance(g: Graph, s: nat, visitado: seq<bool>, pai: seq<int>, nivel: seq<int>, v: nat)
    requires g.Valid() && ParentTree(g, s, visitado, pai, nivel)
    requires forall x, y :: 0 <= x < g.n && visitado[x] && y in Neighbors(g, x) ==>
      visitado[y] && nivel[y] <= nivel[x] + 1
    requires v < g.n
    ensures visitado[v] <==> Reachable(g, s, v)
    ensures visitado[v] ==> IsDistance(g, s, v, nivel[v])
  {
    assert TreeAt(g, s, visitado, pai, nivel, s);
    if visitado[v] {
      assert TreeAt(g, s, visitado, pai, nivel, v);
      TreeWalk(g, s, visitado, pai, nivel, v);
      NoShorterWalk(g, s, visitado, nivel, v);
    } else if Reachable(g, s, v) {
      var p :| WalkFromTo(g, p, s, v);
      LevelBound(g, visitado, nivel, p);
    }
  }

  /** Under the level bound, no walk from the source at level 0 to `v` is shorter than `v`'s level. */
  lemma NoShorterWalk(g: Graph, s: nat, visitado: seq<bool>, nivel: seq<int>, v: nat)
    requires g.Valid() && |visitado| == |nivel| == g.n && s < g.n && visitado[s] && nivel[s] == 0
    requires forall x, y :: 0 <= x < g.n && visitado[x] && y in Neighbors(g, x) ==>
      visitado[y] && nivel[y] <= nivel[x] + 1
    requires v < g.n
    ensures forall p :: WalkFromTo(g, p, s, v) ==> nivel[v] + 1 <= |p|
  {
    forall p | WalkFromTo(g, p, s, v) ensures nivel[v] + 1 <= |p| {
      LevelBound(g, visitado, nivel, p);
    }
  }
}
