/** Permutations of 0..n as sequences: onto-ness, inverses, iteration, cycles. */
module Permutations {

  predicate InRange(p: seq<nat>) {
    forall i :: 0 <= i < |p| ==> p[i] < |p|
  }

  predicate Distinct<T(==)>(p: seq<T>) {
    forall i, j :: 0 <= i < j < |p| ==> p[i] != p[j]
  }

  predicate IsPerm(p: seq<nat>) {
    InRange(p) && Distinct(p)
  }

  ghost function Elements<T>(p: seq<T>): set<T> {
    set x | x in p
  }

  lemma {:induction false} DistinctSize<T>(p: seq<T>)
    requires Distinct(p)
    ensures |Elements(p)| == |p|
  {
    if p != [] {
      var q := p[..|p| - 1];
      DistinctSize(q);
      assert p == q + [p[|p| - 1]];
      assert Elements(p) == Elements(q) + {p[|p| - 1]};
    }
  }

  ghost function Below(n: nat): (s: set<nat>)
    ensures forall x: nat :: x in s <==> x < n
    ensures |s| == n
  {
    if n == 0 then {} else Below(n - 1) + {n - 1}
  }

  lemma {:induction false} SubsetSize<T>(a: set<T>, b: set<T>)
    requires a <= b
    ensures |a| <= |b|
    ensures |a| == |b| ==> a == b
  {
    assert |b| == |a| + |b - a| by { assert b == a + (b - a); }
    if |a| == |b| {
      assert b - a == {};
    }
  }

  /** An injective map of a finite range into itself is onto. */
  lemma {:induction false} PermOnto(p: seq<nat>, v: nat)
    requires IsPerm(p) && v < |p|
    ensures v in p
  {
    DistinctSize(p);
    SubsetSize(Elements(p), Below(|p|));
    assert v in Below(|p|);
  }

  /** More values than the range holds: two of them coincide. */
  lemma {:induction false} Pigeonhole(s: seq<nat>, n: nat) returns (i: nat, j: nat)
    requires |s| > n
    requires forall k :: 0 <= k < |s| ==> s[k] < n
    ensures i < j < |s| && s[i] == s[j]
  {
    if Distinct(s) {
      DistinctSize(s);
      SubsetSize(Elements(s), Below(n));
      assert false;
    }
    i, j :| 0 <= i < j < |s| && s[i] == s[j];
  }

  ghost function IndexOf(p: seq<nat>, v: nat): (i: nat)
    requires IsPerm(p) && v < |p|
    ensures i < |p| && p[i] == v
  {
    PermOnto(p, v);
    var i :| 0 <= i < |p| && p[i] == v;
    i
  }

  ghost function Inverse(p: seq<nat>): (q: seq<nat>)
    requires IsPerm(p)
    ensures |q| == |p| && IsPerm(q)
    ensures forall i :: 0 <= i < |p| ==> q[p[i]] == i
    ensures forall i :: 0 <= i < |p| ==> p[q[i]] == i
  {
    seq(|p|, v requires 0 <= v < |p| => IndexOf(p, v))
  }

  /** x, p(x), p(p(x)), … */
  function Iter(p: seq<nat>, x: nat, k: nat): (y: nat)
    requires InRange(p) && x < |p|
    ensures y < |p|
  {
    if k == 0 then x else p[Iter(p, x, k - 1)]
  }

  lemma {:induction false} IterCancel(p: seq<nat>, x: nat, i: nat, j: nat)
    requires IsPerm(p) && x < |p| && i <= j
    requires Iter(p, x, i) == Iter(p, x, j)
    ensures Iter(p, x, j - i) == x
    decreases i
  {
    if i != 0 {
      var a, b := Iter(p, x, i - 1), Iter(p, x, j - 1);
      assert p[a] == p[b];
      assert a == b;
      IterCancel(p, x, i - 1, j - 1);
    }
  }

  /** Length of the cycle of x: the least positive number of steps back to x. */
  ghost predicate IsCycle(p: seq<nat>, x: nat, m: nat)
    requires InRange(p) && x < |p|
  {
    && 0 < m <= |p|
    && Iter(p, x, m) == x
    && forall t :: 0 < t < m ==> Iter(p, x, t) != x
  }

  lemma {:induction false} CycleExists(p: seq<nat>, x: nat) returns (m: nat)
    requires IsPerm(p) && x < |p|
    ensures IsCycle(p, x, m)
  {
    var s := seq(|p| + 1, k requires 0 <= k => Iter(p, x, k));
    var i, j := Pigeonhole(s, |p|);
    IterCancel(p, x, i, j);
    m := LeastReturn(p, x, j - i);
  }

  lemma {:induction false} LeastReturn(p: seq<nat>, x: nat, b: nat) returns (m: nat)
    requires InRange(p) && x < |p| && 0 < b && Iter(p, x, b) == x
    ensures 0 < m <= b && Iter(p, x, m) == x
    ensures forall t :: 0 < t < m ==> Iter(p, x, t) != x
  {
    if t :| 0 < t < b && Iter(p, x, t) == x {
      m := LeastReturn(p, x, t);
    } else {
      m := b;
    }
  }

  /** Points visited before the cycle closes are pairwise distinct. */
  lemma {:induction false} CycleDistinct(p: seq<nat>, x: nat, m: nat, i: nat, j: nat)
    requires IsPerm(p) && x < |p| && IsCycle(p, x, m)
    requires i < j < m
    ensures Iter(p, x, i) != Iter(p, x, j)
  {
    if Iter(p, x, i) == Iter(p, x, j) {
      IterCancel(p, x, i, j);
      assert false;
    }
  }

  function Select<T>(a: seq<T>, p: seq<nat>): (b: seq<T>)
    requires |p| == |a| && InRange(p)
    ensures |b| == |a| && forall i :: 0 <= i < |a| ==> b[i] == a[p[i]]
  {
    seq(|a|, i requires 0 <= i < |a| => a[p[i]])
  }

  /** Rearranging by a permutation keeps the multiset of elements. */
  lemma {:induction false} SelectMultiset<T>(a: seq<T>, p: seq<nat>)
    requires |p| == |a| && IsPerm(p)
    ensures multiset(Select(a, p)) == multiset(a)
    decreases |a|
  {
    if a == [] {
      assert Select(a, p) == a;
    } else {
      var n := |a| - 1;
      var j := IndexOf(p, n);
      RemovePerm(p, j);
      SelectMultiset(a[..n], Without(p, j));
      var b := Select(a, p);
      assert Select(a[..n], Without(p, j)) == Without(b, j);
      WithoutMultiset(b, j);
      WithoutMultiset(a, n);
      assert Without(a, n) == a[..n];
    }
  }

  function Without<T>(s: seq<T>, j: nat): (r: seq<T>)
    requires j < |s|
    ensures |r| == |s| - 1
    ensures forall i :: 0 <= i < |r| ==> r[i] == if i < j then s[i] else s[i + 1]
  {
    s[..j] + s[j + 1..]
  }

  lemma {:induction false} RemovePerm(p: seq<nat>, j: nat)
    requires IsPerm(p) && j < |p| && p[j] == |p| - 1
    ensures IsPerm(Without(p, j))
  {
  }

  lemma {:induction false} WithoutMultiset<T>(s: seq<T>, j: nat)
    requires j < |s|
    ensures multiset(s) == multiset(Without(s, j)) + multiset{s[j]}
  {
    assert s == s[..j] + [s[j]] + s[j + 1..];
  }
}
