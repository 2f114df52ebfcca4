/**
 * Connected components: a depth-first search `dfs_comp` started from every
 * vertex not yet marked, in ascending order, each collecting the vertices it
 * marks into one component; then the list of components sorted by size,
 * largest first, with a stable sort.
 */
module Components {
  import opened Seqs
  import opened Graphs
  import opened Walks

  /**
   * From (`visitado`, `comp`) to (`visitado'`, `comp'`): `comp` was extended
   * at its end by vertices that were unmarked, appear once, are reachable
   * from `root`, and are exactly the vertices that became marked.
   */
  ghost predicate Appended(g: Graph, root: nat, visitado: seq<bool>, comp: seq<nat>, visitado': seq<bool>, comp': seq<nat>)
    requires g.Valid()
  {
    |visitado| == |visitado'| == g.n && |comp| <= |comp'| && comp'[..|comp|] == comp &&
    (forall x :: 0 <= x < g.n ==> (visitado'[x] <==> visitado[x] || x in comp'[|comp|..])) &&
    (forall x :: x in comp'[|comp|..] ==> x < g.n && !visitado[x] && Reachable(g, root, x)) &&
    Distinct(comp'[|comp|..])
  }

  lemma AppendedTrans(g: Graph, root: nat, v0: seq<bool>, c0: seq<nat>, v1: seq<bool>, c1: seq<nat>, v2: seq<bool>, c2: seq<nat>)
    requires g.Valid() && Appended(g, root, v0, c0, v1, c1) && Appended(g, root, v1, c1, v2, c2)
    ensures Appended(g, root, v0, c0, v2, c2)
  {
    var a, b := c1[|c0|..], c2[|c1|..];
    assert c2[..|c1|] == c1;
    assert c2[|c0|..] == a + b;
    assert c2[..|c0|] == c0;
    forall x | x in a ensures x !in b {
      assert v1[x];
    }
    DistinctConcat(a, b);
  }

  /**
   * The recursive `dfs_comp(v, comp)`: mark `v`, append it to `comp`, then
   * visit each neighbour in adjacency order. Every vertex it marks is
   * appended once and is reachable from `v`, and has all its neighbours
   * marked on return.
   */
  method DfsComp(g: Graph, v: nat, visitado: seq<bool>, comp: seq<nat>) returns (visitado': seq<bool>, comp': seq<nat>)
    requires g.Valid() && |visitado| == g.n && v < g.n && !visitado[v]
    ensures Appended(g, v, visitado, comp, visitado', comp')
    ensures |comp| < |comp'| && comp'[|comp|] == v
    ensures ClosedOutside(g, visitado, visitado')
    decreases CountFalse(visitado), 1
  {
    visitado', comp' := visitado[v := true], comp + [v];
    ghost var marked := visitado';
    AppendedStart(g, v, visitado, comp);
    CountFalseMonotone(visitado, marked);
    var vizinhos := Neighbors(g, v);
    for j := 0 to |vizinhos|
      invariant CompLoop(g, v, vizinhos, j, visitado, comp, marked, visitado', comp')
    {
      ghost var before, compBefore := visitado', comp';
      CountFalseMonotone(marked, visitado');
      visitado', comp' := CompChild(g, v, vizinhos[j], visitado', comp');
      CompLoopStep(g, v, vizinhos, j, visitado, comp, marked, before, compBefore, visitado', comp');
    }
    CompLoopDone(g, v, visitado, comp, vizinhos, visitado', comp');
  }

  /** Marking `v` and appending it is the first step of the search from `v`. */
  lemma AppendedStart(g: Graph, v: nat, visitado: seq<bool>, comp: seq<nat>)
    requires g.Valid() && |visitado| == g.n && v < g.n && !visitado[v]
    ensures Appended(g, v, visitado, comp, visitado[v := true], comp + [v])
  {
    assert (comp + [v])[|comp|..] == [v];
    ReachableRefl(g, v);
  }

  /**
   * What the loop of `dfs_comp(v, comp)` keeps after the first `j` neighbours:
   * the search so far appended to `comp` after `v`, the vertices newly marked
   * since `v` (`marked` has `v`) have their neighbours marked, and the
   * neighbours visited so far are marked.
   */
  ghost predicate CompLoop(g: Graph, v: nat, vizinhos: seq<nat>, j: nat, visitado: seq<bool>, comp: seq<nat>,
                           marked: seq<bool>, visitado': seq<bool>, comp': seq<nat>)
    requires g.Valid()
  {
    j <= |vizinhos| &&
    Appended(g, v, visitado, comp, visitado', comp') &&
    |comp| < |comp'| && comp'[|comp|] == v &&
    |marked| == g.n && (forall x :: 0 <= x < g.n && marked[x] ==> visitado'[x]) &&
    ClosedOutside(g, marked, visitado') &&
    forall k :: 0 <= k < j ==> vizinhos[k] < g.n && visitado'[vizinhos[k]]
  }

  /** Visiting one more neighbour keeps the loop state. */
  lemma CompLoopStep(g: Graph, v: nat, vizinhos: seq<nat>, j: nat, visitado: seq<bool>, comp: seq<nat>, marked: seq<bool>,
                     visitado0: seq<bool>, comp0: seq<nat>, visitado1: seq<bool>, comp1: seq<nat>)
    requires g.Valid() && CompLoop(g, v, vizinhos, j, visitado, comp, marked, visitado0, comp0) && j < |vizinhos|
    requires Appended(g, v, visitado0, comp0, visitado1, comp1)
    requires forall x :: 0 <= x < g.n && visitado0[x] ==> visitado1[x]
    requires vizinhos[j] < g.n && visitado1[vizinhos[j]]
    requires ClosedOutside(g, visitado0, visitado1)
    ensures CompLoop(g, v, vizinhos, j + 1, visitado, comp, marked, visitado1, comp1)
  {
    AppendedTrans(g, v, visitado, comp, visitado0, comp0, visitado1, comp1);
    assert comp1[..|comp0|] == comp0;
    ClosedOutsideTrans(g, marked, visitado0, visitado1);
  }

  /** After the last neighbour, `dfs_comp(v, comp)` has made its promises. */
  lemma CompLoopDone(g: Graph, v: nat, visitado: seq<bool>, comp: seq<nat>, vizinhos: seq<nat>, visitado': seq<bool>, comp': seq<nat>)
    requires g.Valid() && |visitado| == g.n && v < g.n && !visitado[v] && vizinhos == Neighbors(g, v)
    requires CompLoop(g, v, vizinhos, |vizinhos|, visitado, comp, visitado[v := true], visitado', comp')
    ensures ClosedOutside(g, visitado, visitado')
  {
    forall y | y in vizinhos ensures visitado'[y] {
      var k :| 0 <= k < |vizinhos| && vizinhos[k] == y;
    }
    ParentCloses(g, visitado, v, visitado');
  }

  /**
   * One turn of the loop in `dfs_comp(v, comp)`: recurse on the neighbour
   * `u` of `v` if it is still unmarked, otherwise change nothing.
   */
  method CompChild(g: Graph, v: nat, u: nat, visitado: seq<bool>, comp: seq<nat>) returns (visitado': seq<bool>, comp': seq<nat>)
    requires g.Valid() && |visitado| == g.n && v < g.n && visitado[v] && u in Neighbors(g, v)
    ensures Appended(g, v, visitado, comp, visitado', comp')
    ensures forall x :: 0 <= x < g.n && visitado[x] ==> visitado'[x]
    ensures visitado'[u]
    ensures visitado[u] ==> visitado' == visitado && comp' == comp
    ensures ClosedOutside(g, visitado, visitado')
    decreases CountFalse(visitado), 2
  {
    if visitado[u] {
      visitado', comp' := visitado, comp;
      assert comp'[|comp|..] == [];
    } else {
      visitado', comp' := DfsComp(g, u, visitado, comp);
      forall x | x in comp'[|comp|..] ensures Reachable(g, v, x) {
        ReachablePrepend(g, v, u, x);
      }
    }
  }

  /**
   * One step of a stable sort by size, largest first: `c` goes after every
   * element at least as large and before the first smaller one.
   */
  function InsertBySize(s: seq<seq<nat>>, c: seq<nat>): (r: seq<seq<nat>>)
    ensures multiset(r) == multiset(s) + multiset{c}
  {
    if s == [] then [c]
    else if |s[0]| >= |c| then
      assert s == [s[0]] + s[1..];
      [s[0]] + InsertBySize(s[1..], c)
    else [c] + s
  }

  /**
   * `componentes.sort(key=len, reverse=True)`: Python's sort is stable, also
   * with `reverse=True`, so this is the insertion sort that files each
   * element after the equally large ones met before it.
   */
  function SortBySize(cs: seq<seq<nat>>): (r: seq<seq<nat>>)
    ensures multiset(r) == multiset(cs)
  {
    if cs == [] then []
    else
      var m := |cs| - 1;
      assert cs == cs[..m] + [cs[m]];
      InsertBySize(SortBySize(cs[..m]), cs[m])
  }

  /** Sizes never increase along the list. */
  ghost predicate NonIncreasing(s: seq<seq<nat>>) {
    forall i, j :: 0 <= i < j < |s| ==> |s[i]| >= |s[j]|
  }

  /** The elements of size `k`, in order. */
  function OfSize(s: seq<seq<nat>>, k: nat): seq<seq<nat>> {
    if s == [] then []
    else (if |s[0]| == k then [s[0]] else []) + OfSize(s[1..], k)
  }

  lemma {:induction false} OfSizeConcat(a: seq<seq<nat>>, b: seq<seq<nat>>, k: nat)
    ensures OfSize(a + b, k) == OfSize(a, k) + OfSize(b, k)
  {
    if a != [] {
      assert (a + b)[1..] == a[1..] + b;
      OfSizeConcat(a[1..], b, k);
    } else {
      assert a + b == b;
    }
  }

  lemma {:induction false} NoneOfSize(s: seq<seq<nat>>, k: nat)
    requires forall x :: x in s ==> |x| != k
    ensures OfSize(s, k) == []
  {
    if s != [] {
      assert forall x :: x in s[1..] ==> x in s;
      NoneOfSize(s[1..], k);
    }
  }

  /** The tail of a list sorted by size is sorted, and no element of it is larger than the head. */
  lemma NonIncreasingTail(s: seq<seq<nat>>)
    requires s != [] && NonIncreasing(s)
    ensures NonIncreasing(s[1..])
    ensures forall x :: x in s ==> |x| <= |s[0]|
  {
    var t := s[1..];
    assert forall i :: 0 <= i < |t| ==> t[i] == s[i + 1];
    forall x | x in s ensures |x| <= |s[0]| {
      var i :| 0 <= i < |s| && s[i] == x;
    }
  }

  /** A list at least as large as every element of a sorted list can go in front. */
  lemma ConsNonIncreasing(a: seq<nat>, r: seq<seq<nat>>)
    requires NonIncreasing(r) && forall x :: x in r ==> |x| <= |a|
    ensures NonIncreasing([a] + r)
  {
    var t := [a] + r;
    assert forall j :: 0 < j < |t| ==> t[j] == r[j - 1] && t[j] in r;
  }

  lemma InsertMember(s: seq<seq<nat>>, c: seq<nat>, x: seq<nat>)
    requires x in InsertBySize(s, c)
    ensures x == c || x in s
  {
    assert x in multiset(InsertBySize(s, c));
  }

  lemma {:induction false} InsertNonIncreasing(s: seq<seq<nat>>, c: seq<nat>)
    requires NonIncreasing(s)
    ensures NonIncreasing(InsertBySize(s, c))
  {
    if s != [] {
      NonIncreasingTail(s);
      if |s[0]| >= |c| {
        var t := s[1..];
        InsertNonIncreasing(t, c);
        var r := InsertBySize(t, c);
        forall x | x in r ensures |x| <= |s[0]| {
          InsertMember(t, c, x);
          if x != c {
            assert x in s;
          }
        }
        ConsNonIncreasing(s[0], r);
      } else {
        ConsNonIncreasing(c, s);
      }
    }
  }

  /**
   * Inserting into a list sorted by size appends `c` to the elements of its
   * own size and leaves the elements of every other size as they were.
   */
  lemma {:induction false} InsertStable(s: seq<seq<nat>>, c: seq<nat>, k: nat)
    requires NonIncreasing(s)
    ensures OfSize(InsertBySize(s, c), k) == OfSize(s, k) + (if |c| == k then [c] else [])
  {
    var e := if |c| == k then [c] else [];
    if s == [] {
      assert InsertBySize(s, c) == [c] && [c][1..] == [];
      assert OfSize([c], k) == e + OfSize([], k);
    } else if |s[0]| >= |c| {
      var t := s[1..];
      assert NonIncreasing(t) by {
        assert forall i :: 0 <= i < |t| ==> t[i] == s[i + 1];
      }
      InsertStable(t, c, k);
      var h := if |s[0]| == k then [s[0]] else [];
      assert InsertBySize(s, c) == [s[0]] + InsertBySize(t, c);
      assert ([s[0]] + InsertBySize(t, c))[1..] == InsertBySize(t, c);
      AppendAssoc(h, OfSize(t, k), e);
    } else {
      assert InsertBySize(s, c) == [c] + s;
      assert ([c] + s)[1..] == s;
      assert OfSize(InsertBySize(s, c), k) == e + OfSize(s, k);
      if |c| == k {
        forall x | x in s ensures |x| != k {
          var i :| 0 <= i < |s| && s[i] == x;
          assert |s[0]| >= |s[i]|;
        }
        NoneOfSize(s, k);
        assert e + [] == [] + e;
      } else {
        assert e + OfSize(s, k) == OfSize(s, k) + e;
      }
    }
  }

  /** The sort yields sizes in non-increasing order. */
  lemma {:induction false} SortNonIncreasing(cs: seq<seq<nat>>)
    ensures NonIncreasing(SortBySize(cs))
  {
    if cs != [] {
      var m := |cs| - 1;
      SortNonIncreasing(cs[..m]);
      InsertNonIncreasing(SortBySize(cs[..m]), cs[m]);
    }
  }

  /** The sort is stable: the elements of size `k` keep their relative order. */
  lemma {:induction false} SortStable(cs: seq<seq<nat>>, k: nat)
    ensures OfSize(SortBySize(cs), k) == OfSize(cs, k)
  {
    if cs != [] {
      var m := |cs| - 1;
      var front, last: seq<seq<nat>> := cs[..m], [cs[m]];
      SortStable(front, k);
      SortNonIncreasing(front);
      InsertStable(SortBySize(front), cs[m], k);
      SplitLast(cs);
      OfSizeConcat(front, last, k);
      assert last[1..] == [];
      assert OfSize(last, k) == (if |cs[m]| == k then last else []);
    }
  }

  /**
   * The sort yields sizes in non-increasing order, and it is stable: the
   * elements of each size keep their relative order.
   */
  lemma SortBySizeSpec(cs: seq<seq<nat>>)
    ensures NonIncreasing(SortBySize(cs))
    ensures forall k: nat :: OfSize(SortBySize(cs), k) == OfSize(cs, k)
  {
    SortNonIncreasing(cs);
    forall k: nat ensures OfSize(SortBySize(cs), k) == OfSize(cs, k) {
      SortStable(cs, k);
    }
  }

  /** Inserting adds the inserted list's elements to the concatenation, as a multiset. */
  lemma {:induction false} InsertFlatten(s: seq<seq<nat>>, c: seq<nat>)
    ensures multiset(Flatten(InsertBySize(s, c))) == multiset(Flatten(s)) + multiset(c)
  {
    if s == [] {
      FlattenConcat([], [c]);
    } else if |s[0]| >= |c| {
      InsertFlatten(s[1..], c);
      FlattenConcat([s[0]], InsertBySize(s[1..], c));
      FlattenConcat([s[0]], s[1..]);
      FlattenConcat([], [s[0]]);
      assert s == [s[0]] + s[1..];
    } else {
      FlattenConcat([c], s);
      FlattenConcat([], [c]);
    }
  }

  /** Sorting does not change which vertices the components hold, or how often. */
  lemma {:induction false} SortFlatten(cs: seq<seq<nat>>)
    ensures multiset(Flatten(SortBySize(cs))) == multiset(Flatten(cs))
  {
    if cs != [] {
      var m := |cs| - 1;
      SortFlatten(cs[..m]);
      InsertFlatten(SortBySize(cs[..m]), cs[m]);
    }
  }

  /** Every list is non-empty and lists of equal size appear in ascending order of first element. */
  ghost predicate RootOrdered(s: seq<seq<nat>>) {
    (forall i :: 0 <= i < |s| ==> s[i] != []) &&
    forall i, j :: 0 <= i < j < |s| && |s[i]| == |s[j]| ==> s[i][0] < s[j][0]
  }

  lemma ConsRootOrdered(a: seq<nat>, r: seq<seq<nat>>)
    requires RootOrdered(r) && a != []
    requires forall j :: 0 <= j < |r| && |a| == |r[j]| ==> a[0] < r[j][0]
    ensures RootOrdered([a] + r)
  {
    var t := [a] + r;
    assert forall j :: 0 < j < |t| ==> t[j] == r[j - 1];
  }

  /** The tail of a root-ordered list is root-ordered. */
  lemma RootOrderedTail(s: seq<seq<nat>>)
    requires s != [] && RootOrdered(s)
    ensures RootOrdered(s[1..])
  {
    var t := s[1..];
    assert forall i :: 0 <= i < |t| ==> t[i] == s[i + 1];
  }

  lemma {:induction false} InsertRootOrdered(s: seq<seq<nat>>, c: seq<nat>)
    requires NonIncreasing(s) && RootOrdered(s) && c != []
    requires forall i :: 0 <= i < |s| ==> s[i][0] < c[0]
    ensures RootOrdered(InsertBySize(s, c))
  {
    if s != [] {
      var t := s[1..];
      NonIncreasingTail(s);
      RootOrderedTail(s);
      if |s[0]| >= |c| {
        assert forall i :: 0 <= i < |t| ==> t[i] == s[i + 1];
        InsertRootOrdered(t, c);
        var r := InsertBySize(t, c);
        forall j | 0 <= j < |r| && |s[0]| == |r[j]| ensures s[0][0] < r[j][0] {
          InsertMember(t, c, r[j]);
          if r[j] != c {
            var i :| 0 <= i < |t| && t[i] == r[j];
            assert s[i + 1] == r[j];
          }
        }
        ConsRootOrdered(s[0], r);
      } else {
        assert forall j :: 0 <= j < |s| ==> s[j] in s;
        ConsRootOrdered(c, s);
      }
    }
  }

  /**
   * Fed components discovered from ascending roots, the stable sort keeps
   * equally large components in ascending order of their roots.
   */
  lemma {:induction false} SortRootOrdered(cs: seq<seq<nat>>)
    requires forall i :: 0 <= i < |cs| ==> cs[i] != []
    requires forall i, j :: 0 <= i < j < |cs| ==> cs[i][0] < cs[j][0]
    ensures RootOrdered(SortBySize(cs))
  {
    if cs != [] {
      var m := |cs| - 1;
      var front := cs[..m];
      SortRootOrdered(front);
      SortNonIncreasing(front);
      var s := SortBySize(front);
      forall i | 0 <= i < |s| ensures s[i][0] < cs[m][0] {
        assert s[i] in multiset(front);
        var k :| 0 <= k < m && front[k] == s[i];
      }
      InsertRootOrdered(s, cs[m]);
    }
  }

  /** The vertices held by a list of components. */
  ghost function Members(cs: seq<seq<nat>>): set<nat> {
    set x | x in Flatten(cs)
  }

  /**
   * A component as `dfs_comp` collects it: non-empty, headed by its root, the
   * smallest of its vertices, from which every one of them is reachable.
   */
  ghost predicate Rooted(g: Graph, c: seq<nat>)
    requires g.Valid()
  {
    c != [] && forall x :: x in c ==> c[0] <= x && Reachable(g, c[0], x)
  }

  /** The components up to and including the `i`-th hold their vertices' neighbours. */
  ghost predicate ClosedPrefix(g: Graph, cs: seq<seq<nat>>, i: nat)
    requires g.Valid() && i < |cs|
  {
    ClosedUnder(g, Members(cs[..i + 1]))
  }

  /** Every prefix of the discovered components is closed under taking neighbours. */
  ghost predicate PrefixClosed(g: Graph, cs: seq<seq<nat>>)
    requires g.Valid()
  {
    forall i :: 0 <= i < |cs| ==> ClosedPrefix(g, cs, i)
  }

  /** `x` and `y` lie in one component. */
  ghost predicate SameComponent(cs: seq<seq<nat>>, x: nat, y: nat) {
    exists i :: 0 <= i < |cs| && x in cs[i] && y in cs[i]
  }

  /** The marked vertices are exactly the members, all below n, each in one component once. */
  ghost predicate Partitioned(g: Graph, visitado: seq<bool>, cs: seq<seq<nat>>) {
    |visitado| == g.n &&
    (forall x: nat :: 0 <= x < g.n ==> (visitado[x] <==> x in Flatten(cs))) &&
    (forall x: nat :: x in Flatten(cs) ==> x < g.n) &&
    Distinct(Flatten(cs))
  }

  /** Every component is rooted below `v`, and the roots ascend in discovery order. */
  ghost predicate RootsBelow(g: Graph, cs: seq<seq<nat>>, v: nat)
    requires g.Valid()
  {
    (forall i :: 0 <= i < |cs| ==> Rooted(g, cs[i]) && cs[i][0] < v) &&
    (forall i, j :: 0 <= i < j < |cs| ==> cs[i][0] < cs[j][0])
  }

  /** What the outer loop of `connected_components` keeps after the vertices below `v`. */
  ghost predicate Discovered(g: Graph, v: nat, visitado: seq<bool>, cs: seq<seq<nat>>)
    requires g.Valid()
  {
    Partitioned(g, visitado, cs) &&
    (forall x :: 0 <= x < v && x < g.n ==> visitado[x]) &&
    RootsBelow(g, cs, v) &&
    Closed(g, visitado) &&
    PrefixClosed(g, cs)
  }

  /** A search from the unmarked vertex `v` adds one component and keeps the loop's facts. */
  lemma AddComponent(g: Graph, v: nat, before: seq<bool>, cs: seq<seq<nat>>, visitado: seq<bool>, comp: seq<nat>)
    requires g.Valid() && v < g.n && Discovered(g, v, before, cs) && !before[v]
    requires Appended(g, v, before, [], visitado, comp) && |comp| > 0 && comp[0] == v
    requires ClosedOutside(g, before, visitado)
    ensures Discovered(g, v + 1, visitado, cs + [comp])
  {
    AddMembers(g, v, before, cs, visitado, comp);
    AddRoots(g, v, before, cs, visitado, comp);
    ClosedGrow(g, before, visitado);
    AddPrefixClosed(g, cs, comp, visitado);
    assert comp[0..] == comp && v in comp;
  }

  /** The new component is rooted at `v`, above every earlier root. */
  lemma AddRoots(g: Graph, v: nat, before: seq<bool>, cs: seq<seq<nat>>, visitado: seq<bool>, comp: seq<nat>)
    requires g.Valid() && v < g.n && RootsBelow(g, cs, v)
    requires |before| == g.n && forall x :: 0 <= x < v ==> before[x]
    requires Appended(g, v, before, [], visitado, comp) && |comp| > 0 && comp[0] == v
    ensures RootsBelow(g, cs + [comp], v + 1)
  {
    assert comp[0..] == comp;
    forall x | x in comp ensures comp[0] <= x && Reachable(g, comp[0], x) {
      assert !before[x] && x < g.n;
    }
    assert Rooted(g, comp);
  }

  /** The new component's vertices are exactly the newly marked ones, none of them in an earlier component. */
  lemma AddMembers(g: Graph, v: nat, before: seq<bool>, cs: seq<seq<nat>>, visitado: seq<bool>, comp: seq<nat>)
    requires g.Valid() && Partitioned(g, before, cs)
    requires Appended(g, v, before, [], visitado, comp)
    ensures Flatten(cs + [comp]) == Flatten(cs) + comp
    ensures Partitioned(g, visitado, cs + [comp])
  {
    assert comp[0..] == comp;
    FlattenConcat(cs, [comp]);
    FlattenConcat([], [comp]);
    forall x: nat | x in comp ensures x !in Flatten(cs) {
      assert !before[x];
    }
    DistinctConcat(Flatten(cs), comp);
  }

  /** Appending the component whose search closed the marked set keeps every prefix closed. */
  lemma AddPrefixClosed(g: Graph, cs: seq<seq<nat>>, comp: seq<nat>, visitado: seq<bool>)
    requires g.Valid() && PrefixClosed(g, cs)
    requires Closed(g, visitado)
    requires Partitioned(g, visitado, cs + [comp])
    ensures PrefixClosed(g, cs + [comp])
  {
    var cs' := cs + [comp];
    forall i | 0 <= i < |cs'| ensures ClosedPrefix(g, cs', i) {
      if i < |cs| {
        assert ClosedPrefix(g, cs, i);
        assert cs'[..i + 1] == cs[..i + 1];
      } else {
        assert cs'[..i + 1] == cs';
        MarkedClosed(g, visitado, cs');
      }
    }
  }

  /** When the marked vertices are the members and every marked vertex has its neighbours marked, the members are closed. */
  lemma MarkedClosed(g: Graph, visitado: seq<bool>, cs: seq<seq<nat>>)
    requires g.Valid() && Closed(g, visitado)
    requires forall x: nat :: 0 <= x < g.n ==> (visitado[x] <==> x in Flatten(cs))
    ensures ClosedUnder(g, Members(cs))
  {
    forall x, y | x in Members(cs) && x < g.n && y in Neighbors(g, x) ensures y in Members(cs) {
      assert visitado[x];
    }
  }

  /**
   * Nothing in a later component is reachable from an earlier one: the
   * vertices found up to the earlier one's search are closed under
   * neighbours.
   */
  lemma NoReachForward(g: Graph, cs: seq<seq<nat>>, i: nat, j: nat, x: nat, y: nat)
    requires g.Valid() && Distinct(Flatten(cs)) && PrefixClosed(g, cs)
    requires i < j < |cs| && x in cs[i] && y in cs[j]
    ensures !Reachable(g, x, y)
  {
    if Reachable(g, x, y) {
      var pre := cs[..i + 1];
      FlattenMember(pre, x);
      assert x in pre[i];
      assert ClosedPrefix(g, cs, i);
      ClosedReach(g, Members(pre), x, y);
      FlattenMember(pre, y);
      var k :| 0 <= k < |pre| && y in pre[k];
      DistinctFlattenUnique(cs, y, k, j);
    }
  }

  /** Two vertices of one rooted component reach each other when edges go both ways. */
  lemma ClassReach(g: Graph, cs: seq<seq<nat>>, x: nat, y: nat)
    requires g.Valid() && Symmetric(g) && forall i :: 0 <= i < |cs| ==> Rooted(g, cs[i])
    requires SameComponent(cs, x, y)
    ensures Reachable(g, x, y)
  {
    var i :| 0 <= i < |cs| && x in cs[i] && y in cs[i];
    var r := cs[i][0];
    ReachableSymmetric(g, r, x);
    ReachableTrans(g, x, r, y);
  }

  /** A vertex reaches only vertices of its own component when edges go both ways. */
  lemma ReachClass(g: Graph, cs: seq<seq<nat>>, x: nat, y: nat)
    requires g.Valid() && Symmetric(g) && Distinct(Flatten(cs)) && PrefixClosed(g, cs)
    requires x in Flatten(cs) && y in Flatten(cs) && Reachable(g, x, y)
    ensures SameComponent(cs, x, y)
  {
    FlattenMember(cs, x);
    FlattenMember(cs, y);
    var i :| 0 <= i < |cs| && x in cs[i];
    var j :| 0 <= j < |cs| && y in cs[j];
    if i < j {
      NoReachForward(g, cs, i, j, x, y);
    } else if j < i {
      ReachableSymmetric(g, x, y);
      NoReachForward(g, cs, j, i, y, x);
    }
  }

  /**
   * In an undirected graph the discovered components are exactly the
   * reachability classes: two vertices share a component if and only if
   * one is reachable from the other.
   */
  lemma ComponentsAreClasses(g: Graph, cs: seq<seq<nat>>, x: nat, y: nat)
    requires g.Valid() && Symmetric(g) && Discovered(g, g.n, seq(g.n, _ => true), cs)
    requires x < g.n && y < g.n
    ensures SameComponent(cs, x, y) <==> Reachable(g, x, y)
  {
    if SameComponent(cs, x, y) {
      ClassReach(g, cs, x, y);
    }
    if Reachable(g, x, y) {
      assert x in Flatten(cs) && y in Flatten(cs);
      ReachClass(g, cs, x, y);
    }
  }

  /**
   * Every vertex reachable from a component's root lies in that component
   * or in one found from a smaller root: a search takes in everything it
   * reaches that no earlier search took.
   */
  ghost predicate Maximal(g: Graph, cs: seq<seq<nat>>)
    requires g.Valid()
  {
    forall i, y: nat :: 0 <= i < |cs| && cs[i] != [] && y < g.n && Reachable(g, cs[i][0], y) ==>
      exists j :: 0 <= j < |cs| && cs[j] != [] && y in cs[j] && cs[j][0] <= cs[i][0]
  }

  /** The components left by the discovery loop are maximal. */
  lemma DiscoveredMaximal(g: Graph, cs: seq<seq<nat>>)
    requires g.Valid() && Discovered(g, g.n, seq(g.n, _ => true), cs)
    ensures Maximal(g, cs)
  {
    forall i, y: nat | 0 <= i < |cs| && cs[i] != [] && y < g.n && Reachable(g, cs[i][0], y)
      ensures exists j :: 0 <= j < |cs| && cs[j] != [] && y in cs[j] && cs[j][0] <= cs[i][0]
    {
      var k := ReachedEarlier(g, cs, i, y);
    }
  }

  /** What the `i`-th root reaches lies in a component found no later than the `i`-th. */
  lemma ReachedEarlier(g: Graph, cs: seq<seq<nat>>, i: nat, y: nat) returns (k: nat)
    requires g.Valid() && PrefixClosed(g, cs) && RootsBelow(g, cs, g.n)
    requires i < |cs| && Reachable(g, cs[i][0], y)
    ensures k <= i && y in cs[k]
  {
    var pre := cs[..i + 1];
    assert Rooted(g, cs[i]);
    var r := cs[i][0];
    assert r in pre[i];
    FlattenMember(pre, r);
    assert ClosedPrefix(g, cs, i);
    ClosedReach(g, Members(pre), r, y);
    assert y in Flatten(pre);
    FlattenMember(pre, y);
    var j :| 0 <= j < |pre| && y in pre[j];
    k := j;
  }

  /** Sorting keeps the components maximal. */
  lemma SortMaximal(g: Graph, cs: seq<seq<nat>>)
    requires g.Valid() && Maximal(g, cs)
    ensures Maximal(g, SortBySize(cs))
  {
    var r := SortBySize(cs);
    SortSameElements(cs);
    forall i, y: nat | 0 <= i < |r| && r[i] != [] && y < g.n && Reachable(g, r[i][0], y)
      ensures exists j :: 0 <= j < |r| && r[j] != [] && y in r[j] && r[j][0] <= r[i][0]
    {
      SortedAt(g, cs, r, i, y);
    }
  }

  lemma SortedAt(g: Graph, cs: seq<seq<nat>>, r: seq<seq<nat>>, i: nat, y: nat)
    requires g.Valid() && Maximal(g, cs) && forall c :: c in r <==> c in cs
    requires i < |r| && r[i] != [] && y < g.n && Reachable(g, r[i][0], y)
    ensures exists j :: 0 <= j < |r| && r[j] != [] && y in r[j] && r[j][0] <= r[i][0]
  {
    assert r[i] in r;
    var i' :| 0 <= i' < |cs| && cs[i'] == r[i];
    var k :| 0 <= k < |cs| && cs[k] != [] && y in cs[k] && cs[k][0] <= cs[i'][0];
    assert cs[k] in cs;
    var j :| 0 <= j < |r| && r[j] == cs[k];
    assert r[j] != [] && y in r[j] && r[j][0] <= r[i][0];
  }

  /** Sorting keeps the components themselves. */
  lemma SortSameElements(cs: seq<seq<nat>>)
    ensures forall c :: c in SortBySize(cs) <==> c in cs
  {
    var r := SortBySize(cs);
    forall c ensures c in r <==> c in cs {
      assert c in r <==> c in multiset(r);
      assert c in cs <==> c in multiset(cs);
    }
  }

  /** Sorting keeps a partition of 0..n-1 a partition of 0..n-1. */
  lemma SortPartition(cs: seq<seq<nat>>, n: nat)
    requires Distinct(Flatten(cs)) && forall x: nat :: x in Flatten(cs) <==> x < n
    ensures Distinct(Flatten(SortBySize(cs))) && forall x: nat :: x in Flatten(SortBySize(cs)) <==> x < n
  {
    var f, f' := Flatten(cs), Flatten(SortBySize(cs));
    SortFlatten(cs);
    DistinctMultiplicity(f);
    DistinctMultiplicity(f');
    forall x: nat ensures x in f' <==> x < n {
      assert x in f' <==> x in multiset(f');
      assert x in f <==> x in multiset(f);
    }
  }

  /** Sorting keeps which vertices share a component. */
  lemma SortSameComponent(cs: seq<seq<nat>>, x: nat, y: nat)
    ensures SameComponent(SortBySize(cs), x, y) <==> SameComponent(cs, x, y)
  {
    var r := SortBySize(cs);
    SortSameElements(cs);
    if SameComponent(r, x, y) {
      var i :| 0 <= i < |r| && x in r[i] && y in r[i];
      assert r[i] in cs;
    }
    if SameComponent(cs, x, y) {
      var i :| 0 <= i < |cs| && x in cs[i] && y in cs[i];
      assert cs[i] in r;
    }
  }

  /**
   * What `connected_components` returns, from the facts its discovery loop
   * leaves: the sorted list partitions 0..n-1 into rooted components, every
   * vertex in exactly one of them, sizes non-increasing with discovery order
   * kept among equal sizes, and in an undirected graph the components are
   * the reachability classes.
   */
  lemma SortedComponents(g: Graph, cs: seq<seq<nat>>)
    requires g.Valid() && Discovered(g, g.n, seq(g.n, _ => true), cs)
    ensures var r := SortBySize(cs);
      (forall i :: 0 <= i < |r| ==> Rooted(g, r[i])) &&
      Distinct(Flatten(r)) &&
      (forall x: nat :: x in Flatten(r) <==> x < g.n) &&
      (forall x :: 0 <= x < g.n ==> SameComponent(r, x, x)) &&
      (forall i, j, x :: 0 <= i < |r| && 0 <= j < |r| && x in r[i] && x in r[j] ==> i == j) &&
      NonIncreasing(r) && RootOrdered(r) && Maximal(g, r) &&
      (Symmetric(g) ==> forall x, y :: 0 <= x < g.n && 0 <= y < g.n ==> (SameComponent(r, x, y) <==> Reachable(g, x, y)))
  {
    var r := SortBySize(cs);
    SortSameElements(cs);
    forall i | 0 <= i < |r| ensures Rooted(g, r[i]) {
      assert r[i] in cs;
    }
    var all := seq(g.n, _ => true);
    forall x: nat ensures x in Flatten(cs) <==> x < g.n {
      if x < g.n {
        assert all[x];
      }
    }
    SortPartition(cs, g.n);
    forall x: nat | x < g.n ensures SameComponent(r, x, x) {
      assert x in Flatten(r);
      FlattenMember(r, x);
      var i :| 0 <= i < |r| && x in r[i];
    }
    forall i, j, x | 0 <= i < |r| && 0 <= j < |r| && x in r[i] && x in r[j] ensures i == j {
      DistinctFlattenUnique(r, x, i, j);
    }
    SortBySizeSpec(cs);
    SortRootOrdered(cs);
    DiscoveredMaximal(g, cs);
    SortMaximal(g, cs);
    if Symmetric(g) {
      forall x, y | 0 <= x < g.n && 0 <= y < g.n ensures SameComponent(r, x, y) <==> Reachable(g, x, y) {
        ComponentsAreClasses(g, cs, x, y);
        SortSameComponent(cs, x, y);
      }
    }
  }

  /**
   * `connected_components`: search from each unmarked vertex in ascending
   * order, collect each search's vertices as one component, then sort the
   * components by size, largest first. The result partitions 0..n-1; each
   * component is headed by its smallest vertex, from which all its vertices
   * are reachable; equally large components keep their discovery order, so
   * they appear by ascending root; and in an undirected graph two vertices
   * share a component exactly when they are connected.
   */
  method ConnectedComponents(g: Graph) returns (componentes: seq<seq<nat>>)
    requires g.Valid()
    ensures forall i :: 0 <= i < |componentes| ==> Rooted(g, componentes[i])
    ensures Distinct(Flatten(componentes))
    ensures forall x: nat :: x in Flatten(componentes) <==> x < g.n
    ensures forall x :: 0 <= x < g.n ==> SameComponent(componentes, x, x)
    ensures forall i, j, x ::
      (0 <= i < |componentes| && 0 <= j < |componentes| && x in componentes[i] && x in componentes[j]) ==> i == j
    ensures NonIncreasing(componentes) && RootOrdered(componentes)
    ensures forall i, y: nat :: 0 <= i < |componentes| && y < g.n && Reachable(g, componentes[i][0], y) ==>
      exists j :: 0 <= j < |componentes| && y in componentes[j] && componentes[j][0] <= componentes[i][0]
    ensures Symmetric(g) ==>
      forall x, y :: 0 <= x < g.n && 0 <= y < g.n ==> (SameComponent(componentes, x, y) <==> Reachable(g, x, y))
  {
    var visitado := seq(g.n, _ => false);
    var descobertos: seq<seq<nat>> := [];
    assert Closed(g, visitado);
    for v := 0 to g.n
      invariant Discovered(g, v, visitado, descobertos)
    {
      if !visitado[v] {
        ghost var before := visitado;
        var comp;
        visitado, comp := DfsComp(g, v, visitado, []);
        AddComponent(g, v, before, descobertos, visitado, comp);
        descobertos := descobertos + [comp];
      }
    }
    assert visitado == seq(g.n, _ => true);
    componentes := SortBySize(descobertos);
    SortedComponents(g, descobertos);
  }
}
