/**
 * Facts about sequences shared by the graph store, the traversals and the
 * Hamiltonian heuristic: distinctness, the vertex range `range(n)`, the
 * concatenation of a list of lists, and a count of unset flags.
 */
module Seqs {

  /** No element occurs twice. */
  predicate Distinct<T(==)>(s: seq<T>) {
    forall i, j :: 0 <= i < j < |s| ==> s[i] != s[j]
  }

  /** The vertices 0, 1, ..., n-1 in ascending order, as Python's `range(n)`. */
  function Range(n: nat): (r: seq<nat>)
    ensures |r| == n
    ensures forall i :: 0 <= i < n ==> r[i] == i
  {
    if n == 0 then [] else Range(n - 1) + [n - 1]
  }

  /** A sequence holds each of 0..n-1 exactly once. */
  predicate IsPermutation(s: seq<nat>, n: nat) {
    multiset(s) == multiset(Range(n))
  }

  lemma InRange(n: nat, x: nat)
    ensures x in Range(n) <==> x < n
  {
    if x < n {
      assert Range(n)[x] == x;
    }
  }

  lemma {:induction false} DistinctSnoc<T>(s: seq<T>, a: T)
    ensures Distinct(s + [a]) <==> Distinct(s) && a !in s
  {
    var t := s + [a];
    assert forall i :: 0 <= i < |s| ==> t[i] == s[i];
    assert t[|s|] == a;
  }

  /** A sequence is distinct exactly when no element has multiplicity above one. */
  lemma {:induction false} DistinctMultiplicity<T>(s: seq<T>)
    ensures Distinct(s) <==> forall x :: multiset(s)[x] <= 1
  {
    if s != [] {
      var s', a := s[..|s| - 1], s[|s| - 1];
      assert s == s' + [a];
      DistinctMultiplicity(s');
      DistinctSnoc(s', a);
      assert forall x :: multiset(s)[x] == multiset(s')[x] + (if x == a then 1 else 0);
      if forall x :: multiset(s)[x] <= 1 {
        assert multiset(s')[a] == 0;
      }
    }
  }

  /** Removing elements (in the multiset sense) keeps a sequence distinct. */
  lemma DistinctSubMultiset<T>(s: seq<T>, t: seq<T>)
    requires multiset(s) <= multiset(t)
    requires Distinct(t)
    ensures Distinct(s)
  {
    DistinctMultiplicity(t);
    DistinctMultiplicity(s);
    forall x ensures multiset(s)[x] <= 1 {
      assert multiset(s)[x] <= multiset(t)[x];
    }
  }

  lemma RangeDistinct(n: nat)
    ensures Distinct(Range(n))
  {
  }

  /** A permutation of 0..n-1 is distinct and holds exactly the values below n. */
  lemma PermutationFacts(s: seq<nat>, n: nat)
    requires IsPermutation(s, n)
    ensures |s| == n
    ensures Distinct(s)
    ensures forall x: nat :: x in s <==> x < n
  {
    RangeDistinct(n);
    DistinctSubMultiset(s, Range(n));
    assert |s| == |multiset(s)| == |multiset(Range(n))| == n;
    forall x: nat ensures x in s <==> x < n {
      InRange(n, x);
      assert x in s <==> x in multiset(s);
      assert x in Range(n) <==> x in multiset(Range(n));
    }
  }

  lemma {:induction false} DistinctConcat<T>(a: seq<T>, b: seq<T>)
    ensures Distinct(a + b) <==> Distinct(a) && Distinct(b) && forall x :: x in a ==> x !in b
  {
    var t := a + b;
    assert forall i :: 0 <= i < |a| ==> t[i] == a[i];
    assert forall i :: 0 <= i < |b| ==> t[|a| + i] == b[i];
    if Distinct(a) && Distinct(b) && forall x :: x in a ==> x !in b {
      forall i, j | 0 <= i < j < |t| ensures t[i] != t[j] {
        if j < |a| {
        } else if i >= |a| {
          assert t[i] == b[i - |a|] && t[j] == b[j - |a|];
        } else {
          assert t[i] in a && t[j] == b[j - |a|];
        }
      }
    }
  }

  /** Dropping index `k` of a distinct sequence leaves a distinct sequence without `s[k]`. */
  lemma DistinctRemove<T>(s: seq<T>, k: nat)
    requires Distinct(s) && k < |s|
    ensures Distinct(s[..k] + s[k + 1..])
    ensures forall x :: x in s[..k] + s[k + 1..] ==> x in s && x != s[k]
  {
    var t := s[..k] + s[k + 1..];
    assert forall i :: 0 <= i < |t| ==> t[i] == s[if i < k then i else i + 1];
  }

  /** A distinct sequence of values below `n` has at most `n` elements. */
  lemma {:induction false} DistinctBound(s: seq<nat>, n: nat)
    requires Distinct(s) && forall x :: x in s ==> x < n
    ensures |s| <= n
    decreases n
  {
    if s != [] {
      assert s[0] in s;
    }
    if n > 0 {
      if n - 1 in s {
        var k :| 0 <= k < |s| && s[k] == n - 1;
        var t := s[..k] + s[k + 1..];
        DistinctRemove(s, k);
        forall x | x in t ensures x < n - 1 {
          assert x in s && x != n - 1;
        }
        DistinctBound(t, n - 1);
      } else {
        forall x | x in s ensures x < n - 1 {
          assert x != n - 1;
        }
        DistinctBound(s, n - 1);
      }
    }
  }

  /** Concatenation is associative. */
  lemma AppendAssoc<T>(a: seq<T>, b: seq<T>, c: seq<T>)
    ensures a + (b + c) == (a + b) + c
  {
  }

  /** A non-empty sequence is its front followed by its last element. */
  lemma SplitLast<T>(s: seq<T>)
    requires s != []
    ensures s == s[..|s| - 1] + [s[|s| - 1]]
  {
  }

  /** Slices around index `k > 0` of `s`, read off the tail `s[1..]`. */
  lemma SliceTail<T>(s: seq<T>, k: nat)
    requires 0 < k < |s|
    ensures s[..k] == [s[0]] + s[1..][..k - 1]
    ensures s[k + 1..] == s[1..][k..]
  {
  }

  /** Dropping the front of a queue that is a suffix of `order`, then appending, keeps it a suffix. */
  lemma DequeueEnqueue<T>(order: seq<T>, head: nat, novos: seq<T>)
    requires head < |order|
    ensures order[head..][1..] + novos == (order + novos)[head + 1..]
  {
  }

  /** Taking one more element of a prefix that an extension keeps. */
  lemma PrefixSnoc<T>(a: seq<T>, b: seq<T>, k: nat)
    requires k < |a| <= |b| && b[..|a|] == a
    ensures b[..k + 1] == a[..k] + [a[k]]
  {
  }

  /** The concatenation of a list of lists, in order. */
  function Flatten<T>(ss: seq<seq<T>>): seq<T> {
    if ss == [] then [] else Flatten(ss[..|ss| - 1]) + ss[|ss| - 1]
  }

  lemma {:induction false} FlattenConcat<T>(a: seq<seq<T>>, b: seq<seq<T>>)
    ensures Flatten(a + b) == Flatten(a) + Flatten(b)
  {
    if b != [] {
      var b', c := b[..|b| - 1], b[|b| - 1];
      assert b == b' + [c];
      assert (a + b)[..|a + b| - 1] == a + b';
      FlattenConcat(a, b');
    } else {
      assert a + b == a;
    }
  }

  /** An element of the concatenation lies in one of the lists. */
  lemma {:induction false} FlattenMember<T>(ss: seq<seq<T>>, x: T)
    ensures x in Flatten(ss) <==> exists i :: 0 <= i < |ss| && x in ss[i]
  {
    if ss != [] {
      var ss' := ss[..|ss| - 1];
      FlattenMember(ss', x);
      if x in Flatten(ss') {
        var i :| 0 <= i < |ss'| && x in ss'[i];
        assert x in ss[i];
      }
      if exists i :: 0 <= i < |ss| && x in ss[i] {
        var i :| 0 <= i < |ss| && x in ss[i];
        if i < |ss'| {
          assert x in ss'[i];
        }
      }
    }
  }

  /** When the concatenation is distinct, an element lies in exactly one of the lists. */
  lemma {:induction false} DistinctFlattenUnique<T>(ss: seq<seq<T>>, x: T, i: nat, j: nat)
    requires Distinct(Flatten(ss))
    requires i < |ss| && j < |ss|
    requires x in ss[i] && x in ss[j]
    ensures i == j
  {
    var ss' := ss[..|ss| - 1];
    var last := ss[|ss| - 1];
    DistinctConcat(Flatten(ss'), last);
    if i < |ss'| && j < |ss'| {
      assert x in ss'[i] && x in ss'[j];
      DistinctFlattenUnique(ss', x, i, j);
    } else if i < |ss'| {
      assert x in ss'[i];
      FlattenMember(ss', x);
    } else if j < |ss'| {
      assert x in ss'[j];
      FlattenMember(ss', x);
    }
  }

  /** The number of `false` entries: the vertices not yet visited. */
  function CountFalse(s: seq<bool>): (r: nat)
    ensures r <= |s|
  {
    if s == [] then 0 else CountFalse(s[..|s| - 1]) + (if s[|s| - 1] then 0 else 1)
  }

  /**
   * Setting the flags of some unset entries: the count of unset ones drops
   * when at least one entry was set.
   */
  lemma SetFlags(a: seq<bool>, b: seq<bool>, marked: seq<nat>)
    requires |a| == |b|
    requires forall i :: 0 <= i < |a| ==> (b[i] <==> a[i] || i in marked)
    requires forall i :: i in marked ==> i < |a| && !a[i]
    ensures CountFalse(b) <= CountFalse(a)
    ensures marked != [] ==> CountFalse(b) < CountFalse(a)
  {
    CountFalseMonotone(a, b);
    if marked != [] {
      assert marked[0] in marked;
    }
  }

  /** Setting flags never raises the count of unset ones, and setting one strictly lowers it. */
  lemma {:induction false} CountFalseMonotone(a: seq<bool>, b: seq<bool>)
    requires |a| == |b|
    requires forall i :: 0 <= i < |a| && a[i] ==> b[i]
    ensures CountFalse(b) <= CountFalse(a)
    ensures (exists i :: 0 <= i < |a| && !a[i] && b[i]) ==> CountFalse(b) < CountFalse(a)
  {
    if a != [] {
      var m := |a| - 1;
      CountFalseMonotone(a[..m], b[..m]);
      if exists i :: 0 <= i < |a| && !a[i] && b[i] {
        var i :| 0 <= i < |a| && !a[i] && b[i];
        if i < m {
          assert !a[..m][i] && b[..m][i];
        }
      }
    }
  }
}
