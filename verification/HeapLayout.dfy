/** How the allocator's memory is tiled: every block below the break belongs to
    exactly one free cluster or one owned region. */
module HeapLayout {
  import opened FreeList

  /** ring and sz are the free list, sentinel first. owned gives the regions that
      are not free: the live clusters, listed in live, and those that belong to
      the allocator itself or to another user of the break. */
  datatype Layout = Layout(ring: seq<nat>, sz: seq<nat>, owned: map<nat, nat>, live: set<nat>)

  ghost predicate OwnedBlock(owned: map<nat, nat>, x: int) {
    exists a :: a in owned && a <= x < a + owned[a]
  }

  ghost predicate RingFits(l: Layout, bound: nat) {
    && 1 <= |l.ring| == |l.sz| && l.ring[0] == 0 == l.sz[0]
    && Ordered(l.ring, l.sz)
    && (forall k :: 1 <= k < |l.sz| ==> l.sz[k] > 0)
    && forall k :: 0 <= k < |l.ring| ==> l.ring[k] + l.sz[k] <= bound
  }

  ghost predicate RegionsFit(l: Layout, bound: nat, brk: nat) {
    && (forall a :: a in l.owned ==> 1 <= a && l.owned[a] > 0 && a + l.owned[a] <= brk)
    && (forall a :: a in l.live ==> a in l.owned && a + l.owned[a] <= bound)
  }

  ghost predicate RegionsApart(l: Layout) {
    forall a, b :: a in l.owned && b in l.owned && a < b ==> a + l.owned[a] <= b
  }

  ghost predicate RingApart(l: Layout)
    requires |l.ring| == |l.sz|
  {
    forall a, k :: a in l.owned && 0 <= k < |l.ring| ==> a + l.owned[a] <= l.ring[k] || l.ring[k] + l.sz[k] <= a
  }

  ghost predicate Covered(l: Layout, brk: nat)
    requires |l.ring| == |l.sz|
  {
    forall x :: 1 <= x < brk ==> FreeBlock(l.ring, l.sz, x) || OwnedBlock(l.owned, x)
  }

  /** The tiling, with every free and live cluster below bound. */
  ghost predicate Tiling(l: Layout, slack: int, bound: nat, brk: nat) {
    && RingFits(l, bound) && RegionsFit(l, bound, brk) && bound <= brk
    && Coalesced(l.ring, l.sz, slack)
    && RegionsApart(l) && RingApart(l) && Covered(l, brk)
  }

  // ------------------------------------------------------- covering witnesses

  lemma {:induction false} FreeAt(ring: seq<nat>, sz: seq<nat>, k: nat, x: int)
    requires |ring| == |sz| && k < |ring| && ring[k] <= x < ring[k] + sz[k]
    ensures FreeBlock(ring, sz, x)
  {
  }

  lemma {:induction false} OwnedAt(owned: map<nat, nat>, a: nat, x: int)
    requires a in owned && a <= x < a + owned[a]
    ensures OwnedBlock(owned, x)
  {
  }

  /** The cluster or region that block x belongs to. */
  lemma {:induction false} Locate(l: Layout, brk: nat, x: nat) returns (free: bool, i: nat)
    requires |l.ring| == |l.sz| && Covered(l, brk) && 1 <= x < brk
    ensures free ==> i < |l.ring| && l.ring[i] <= x < l.ring[i] + l.sz[i]
    ensures !free ==> i in l.owned && i <= x < i + l.owned[i]
  {
    free := FreeBlock(l.ring, l.sz, x);
    if free {
      i :| 0 <= i < |l.ring| && l.ring[i] <= x < l.ring[i] + l.sz[i];
    } else {
      assert OwnedBlock(l.owned, x);
      i :| i in l.owned && i <= x < i + l.owned[i];
    }
  }

  // ------------------------------------------------------------- the operations

  /** Where block a lies on the ring: after number k. */
  ghost predicate Follows(l: Layout, k: nat, a: nat)
    requires |l.ring| == |l.sz|
  {
    k < |l.ring| && l.ring[k] < a && (k + 1 < |l.ring| ==> a < l.ring[k + 1])
  }

  lemma {:induction false} FollowsIs(l: Layout, k: nat, a: nat)
    requires |l.ring| == |l.sz| && Follows(l, k, a)
    ensures k < |l.ring|
  {
  }

  lemma {:induction false} TilingIs(l: Layout, slack: int, bound: nat, brk: nat)
    requires Tiling(l, slack, bound, brk)
    ensures 1 <= |l.ring| == |l.sz| && Covered(l, brk) && Ordered(l.ring, l.sz) && Distinct(l.ring)
    ensures bound <= brk && RingFits(l, bound) && RegionsFit(l, bound, brk)
  {
  }

  ghost function Freed(l: Layout, a: nat): Layout {
    l.(owned := l.owned - {a}, live := l.live - {a})
  }

  /** Removing a region keeps the others where they were. */
  lemma {:induction false} FreedRegions(l: Layout, a: nat, bound: nat, brk: nat)
    requires RegionsFit(l, bound, brk) && RegionsApart(l)
    ensures RegionsFit(Freed(l, a), bound, brk) && RegionsApart(Freed(l, a))
    ensures forall b :: b in Freed(l, a).owned <==> b in l.owned && b != a
    ensures forall b :: b in Freed(l, a).owned ==> Freed(l, a).owned[b] == l.owned[b]
  {
  }

  /** A region lies in the gap of the ring where its start does. */
  lemma {:induction false} GapHolds(l: Layout, k: nat, a: nat, bound: nat, brk: nat, slack: int)
    requires Tiling(l, slack, bound, brk) && a in l.owned && Follows(l, k, a)
    ensures l.ring[k] + l.sz[k] <= a && (k + 1 < |l.ring| ==> a + l.owned[a] <= l.ring[k + 1])
  {
  }

  ghost function WithNew(l: Layout, k: nat, a: nat): Layout
    requires k < |l.ring| == |l.sz| && a in l.owned
  {
    Freed(l, a).(ring := InsertAfter(l.ring, k, a), sz := InsertAfter(l.sz, k, l.owned[a]))
  }

  lemma {:induction false} FreeNewCovers(l: Layout, k: nat, a: nat, brk: nat)
    requires |l.ring| == |l.sz| && Covered(l, brk) && k < |l.ring| && a in l.owned
    ensures Covered(WithNew(l, k, a), brk)
  {
    var l' := WithNew(l, k, a);
    forall x: nat | 1 <= x < brk ensures FreeBlock(l'.ring, l'.sz, x) || OwnedBlock(l'.owned, x) {
      var free, i := Locate(l, brk, x);
      if free {
        FreeAt(l'.ring, l'.sz, if i <= k then i else i + 1, x);
      } else if i == a {
        FreeAt(l'.ring, l'.sz, k + 1, x);
      } else {
        OwnedAt(l'.owned, i, x);
      }
    }
  }

  lemma {:induction false} FreeNewApart(l: Layout, k: nat, a: nat, bound: nat, brk: nat)
    requires Tiling(l, -1, bound, brk) && a in l.owned && Follows(l, k, a)
    ensures RingApart(WithNew(l, k, a))
  {
    hide Covered, Ordered, Coalesced;
    var l' := WithNew(l, k, a);
    forall b, j | b in l'.owned && 0 <= j < |l'.ring|
      ensures b + l'.owned[b] <= l'.ring[j] || l'.ring[j] + l'.sz[j] <= b
    {
      if j == k + 1 {
        assert b < a || a < b;
      } else {
        var i := if j <= k then j else j - 1;
        assert l'.ring[j] == l.ring[i] && l'.sz[j] == l.sz[i];
      }
    }
  }

  /** Freeing a by a new entry after number k. */
  lemma {:induction false} FreeNew(l: Layout, k: nat, a: nat, bound: nat, brk: nat)
    requires Tiling(l, -1, bound, brk) && a in l.owned && a + l.owned[a] <= bound && Follows(l, k, a)
    requires l.ring[k] + l.sz[k] != a
    ensures OffRing(l.ring, a) && Tiling(WithNew(l, k, a), k + 1, bound, brk)
  {
    hide *;
    TilingIs(l, -1, bound, brk);
    FollowsIs(l, k, a);
    FreeNewCovers(l, k, a, brk);
    FreeNewApart(l, k, a, bound, brk);
    FreeNewRing(l, k, a, bound, brk);
  }

  lemma {:induction false} FreeNewRing(l: Layout, k: nat, a: nat, bound: nat, brk: nat)
    requires Tiling(l, -1, bound, brk) && a in l.owned && a + l.owned[a] <= bound && Follows(l, k, a)
    requires l.ring[k] + l.sz[k] != a
    requires Covered(WithNew(l, k, a), brk) && RingApart(WithNew(l, k, a))
    ensures OffRing(l.ring, a) && Tiling(WithNew(l, k, a), k + 1, bound, brk)
  {
    hide Covered, RingApart, RegionsApart;
    var l' := WithNew(l, k, a);
    FreedRegions(l, a, bound, brk);
    RegionsApartFrame(Freed(l, a), l');
    GapFits(l, k, a, bound, brk);
    FitsBetween(l.ring, l.sz, k, a, l.owned[a]);
    NewRing(l, k, a, l.owned[a], bound);
  }

  lemma {:induction false} GapFits(l: Layout, k: nat, a: nat, bound: nat, brk: nat)
    requires Tiling(l, -1, bound, brk) && a in l.owned && Follows(l, k, a)
    ensures l.ring[k] + l.sz[k] <= a && (k + 1 < |l.ring| ==> a + l.owned[a] <= l.ring[k + 1])
    ensures l.owned[a] > 0
  {
    GapHolds(l, k, a, bound, brk, -1);
  }

  lemma {:induction false} NewRing(l: Layout, k: nat, a: nat, n: nat, bound: nat)
    requires RingFits(l, bound) && Coalesced(l.ring, l.sz, -1) && k < |l.ring| && n > 0 && a + n <= bound
    requires Ordered(InsertAfter(l.ring, k, a), InsertAfter(l.sz, k, n)) && l.ring[k] + l.sz[k] != a
    ensures var l' := l.(ring := InsertAfter(l.ring, k, a), sz := InsertAfter(l.sz, k, n));
      RingFits(l', bound) && Coalesced(l'.ring, l'.sz, k + 1)
  {
    hide Ordered;
    NewCoalesced(l.ring, l.sz, k, a, n);
    hide Coalesced;
    var l' := l.(ring := InsertAfter(l.ring, k, a), sz := InsertAfter(l.sz, k, n));
    forall j | 0 <= j < |l'.ring| && j != k + 1
      ensures l'.ring[j] == l.ring[if j <= k then j else j - 1] && l'.sz[j] == l.sz[if j <= k then j else j - 1]
    {
    }
  }

  lemma {:induction false} NewCoalesced(ring: seq<nat>, sz: seq<nat>, k: nat, a: nat, n: nat)
    requires Coalesced(ring, sz, -1) && k < |ring| && ring[k] + sz[k] != a
    ensures Coalesced(InsertAfter(ring, k, a), InsertAfter(sz, k, n), k + 1)
  {
    var r, s := InsertAfter(ring, k, a), InsertAfter(sz, k, n);
    forall i, j | 0 <= i && j == i + 1 < |r| && i != k + 1 ensures r[i] + s[i] != r[j] {
      if i > k + 1 {
        assert ring[i - 1] + sz[i - 1] != ring[j - 1];
      } else if i < k {
        assert ring[i] + sz[i] != ring[j];
      }
    }
  }

  lemma {:induction false} RegionsApartFrame(l: Layout, l': Layout)
    requires RegionsApart(l) && l'.owned == l.owned
    ensures RegionsApart(l')
  {
  }

  ghost function Longer(l: Layout, k: nat, a: nat): Layout
    requires k < |l.ring| == |l.sz| && a in l.owned
  {
    Freed(l, a).(sz := l.sz[k := l.sz[k] + l.owned[a]])
  }

  lemma {:induction false} LongerCovers(l: Layout, k: nat, a: nat, brk: nat)
    requires |l.ring| == |l.sz| && Covered(l, brk) && k < |l.ring| && a in l.owned && l.ring[k] + l.sz[k] == a
    ensures Covered(Longer(l, k, a), brk)
  {
    var l' := Longer(l, k, a);
    forall x: nat | 1 <= x < brk ensures FreeBlock(l'.ring, l'.sz, x) || OwnedBlock(l'.owned, x) {
      var free, i := Locate(l, brk, x);
      if free {
        FreeAt(l'.ring, l'.sz, i, x);
      } else if i == a {
        FreeAt(l'.ring, l'.sz, k, x);
      } else {
        OwnedAt(l'.owned, i, x);
      }
    }
  }

  lemma {:induction false} LongerApart(l: Layout, k: nat, a: nat, bound: nat, brk: nat)
    requires Tiling(l, -1, bound, brk) && a in l.owned && k < |l.ring| && l.ring[k] + l.sz[k] == a
    ensures RingApart(Longer(l, k, a))
  {
    hide Covered, Ordered, Coalesced;
    var l' := Longer(l, k, a);
    forall b, j | b in l'.owned && 0 <= j < |l'.ring|
      ensures b + l'.owned[b] <= l'.ring[j] || l'.ring[j] + l'.sz[j] <= b
    {
      assert b < a || a < b;
      assert b + l.owned[b] <= l.ring[j] || l.ring[j] + l.sz[j] <= b;
    }
  }

  lemma {:induction false} LongerOrdered(ring: seq<nat>, sz: seq<nat>, k: nat, n: nat)
    requires Ordered(ring, sz) && k < |ring| && (k + 1 < |ring| ==> ring[k] + sz[k] + n <= ring[k + 1])
    ensures Ordered(ring, sz[k := sz[k] + n])
  {
  }

  /** Freeing a by extending number k, which it touches. */
  lemma {:induction false} FreeOnto(l: Layout, k: nat, a: nat, bound: nat, brk: nat)
    requires Tiling(l, -1, bound, brk) && a in l.owned && a + l.owned[a] <= bound && Follows(l, k, a)
    requires l.ring[k] + l.sz[k] == a
    ensures k > 0 && Tiling(Longer(l, k, a), k, bound, brk)
  {
    hide Covered, FreeBlock, RegionsApart, RingApart, Ordered;
    LongerCovers(l, k, a, brk);
    LongerApart(l, k, a, bound, brk);
    FreedRegions(l, a, bound, brk);
    GapHolds(l, k, a, bound, brk, -1);
    LongerOrdered(l.ring, l.sz, k, l.owned[a]);
    RegionsApartFrame(Freed(l, a), Longer(l, k, a));
  }

  ghost function Absorbed(l: Layout, k: nat): Layout
    requires k + 1 < |l.ring| == |l.sz|
  {
    l.(ring := RemoveAt(l.ring, k + 1), sz := RemoveAt(l.sz[k := l.sz[k] + l.sz[k + 1]], k + 1))
  }

  lemma {:induction false} JoinedAt(l: Layout, k: nat, j: nat)
    requires k + 1 < |l.ring| == |l.sz| && j < |l.ring| - 1
    ensures Absorbed(l, k).ring[j] == l.ring[if j <= k then j else j + 1]
    ensures Absorbed(l, k).sz[j] == if j < k then l.sz[j] else if j == k then l.sz[k] + l.sz[k + 1] else l.sz[j + 1]
  {
  }

  lemma {:induction false} SwallowCovers(l: Layout, k: nat, brk: nat)
    requires |l.ring| == |l.sz| && Covered(l, brk) && k + 1 < |l.ring| && l.ring[k] + l.sz[k] == l.ring[k + 1]
    ensures Covered(Absorbed(l, k), brk)
  {
    hide Absorbed;
    JoinedShape(l, k);
    var l' := Absorbed(l, k);
    forall x: nat | 1 <= x < brk ensures FreeBlock(l'.ring, l'.sz, x) || OwnedBlock(l'.owned, x) {
      var free, i := Locate(l, brk, x);
      if free {
        var j := if i <= k then i else i - 1;
        JoinedAt(l, k, j);
        FreeAt(l'.ring, l'.sz, j, x);
      } else {
        OwnedAt(l'.owned, i, x);
      }
    }
  }

  lemma {:induction false} JoinedShape(l: Layout, k: nat)
    requires k + 1 < |l.ring| == |l.sz|
    ensures var l' := Absorbed(l, k);
      |l'.ring| == |l'.sz| == |l.ring| - 1 && l'.owned == l.owned && l'.live == l.live
  {
  }

  /** Number k swallows the next cluster, which it touches. */
  lemma {:induction false} Swallow(l: Layout, k: nat, bound: nat, brk: nat)
    requires Tiling(l, k, bound, brk) && 0 < k && k + 1 < |l.ring| && l.ring[k] + l.sz[k] == l.ring[k + 1]
    ensures Tiling(Absorbed(l, k), -1, bound, brk)
  {
    hide *;
    TilingIs(l, k, bound, brk);
    SwallowCovers(l, k, brk);
    SwallowApart(l, k, bound, brk);
    SwallowRing(l, k, bound, brk);
  }

  lemma {:induction false} SwallowApart(l: Layout, k: nat, bound: nat, brk: nat)
    requires Tiling(l, k, bound, brk) && k + 1 < |l.ring| && l.ring[k] + l.sz[k] == l.ring[k + 1]
    ensures RingApart(Absorbed(l, k))
  {
    hide Absorbed, Covered, Coalesced, Ordered;
    JoinedShape(l, k);
    var l' := Absorbed(l, k);
    forall b, j | b in l'.owned && 0 <= j < |l'.ring|
      ensures b + l'.owned[b] <= l'.ring[j] || l'.ring[j] + l'.sz[j] <= b
    {
      JoinedAt(l, k, j);
      assert b + l.owned[b] <= l.ring[j] || l.ring[j] + l.sz[j] <= b;
      assert b + l.owned[b] <= l.ring[j + 1] || l.ring[j + 1] + l.sz[j + 1] <= b;
    }
  }

  lemma {:induction false} SwallowOrdered(l: Layout, k: nat, bound: nat, brk: nat)
    requires Tiling(l, k, bound, brk) && 0 < k && k + 1 < |l.ring| && l.ring[k] + l.sz[k] == l.ring[k + 1]
    ensures Ordered(Absorbed(l, k).ring, Absorbed(l, k).sz)
  {
    hide Absorbed, Covered, RingApart, RegionsApart, Coalesced;
    JoinedShape(l, k);
    var l' := Absorbed(l, k);
    forall i, j | 0 <= i < j < |l'.ring| ensures l'.ring[i] < l'.ring[j] && l'.ring[i] + l'.sz[i] <= l'.ring[j] {
      var i', j' := if i < k then i else i + 1, if j <= k then j else j + 1;
      JoinedAt(l, k, i);
      JoinedAt(l, k, j);
      assert l'.ring[j] == l.ring[j'] && l'.ring[i] + l'.sz[i] == l.ring[i'] + l.sz[i'];
      assert l.ring[i'] + l.sz[i'] <= l.ring[j'] && l.ring[i] < l.ring[j'];
    }
  }

  lemma {:induction false} SwallowFits(l: Layout, k: nat, bound: nat, brk: nat)
    requires Tiling(l, k, bound, brk) && 0 < k && k + 1 < |l.ring| && l.ring[k] + l.sz[k] == l.ring[k + 1]
    ensures RingFits(Absorbed(l, k), bound)
  {
    SwallowOrdered(l, k, bound, brk);
    hide Absorbed, Covered, RingApart, RegionsApart, Coalesced, Ordered;
    JoinedShape(l, k);
    JoinedAt(l, k, 0);
    var l' := Absorbed(l, k);
    forall j | 0 <= j < |l'.ring| ensures l'.ring[j] + l'.sz[j] <= bound && (j > 0 ==> l'.sz[j] > 0) {
      var j' := if j < k then j else j + 1;
      JoinedAt(l, k, j);
      assert l'.ring[j] + l'.sz[j] == l.ring[j'] + l.sz[j'];
    }
  }

  lemma {:induction false} SwallowCoalesced(l: Layout, k: nat, bound: nat, brk: nat)
    requires Tiling(l, k, bound, brk) && 0 < k && k + 1 < |l.ring| && l.ring[k] + l.sz[k] == l.ring[k + 1]
    ensures Coalesced(Absorbed(l, k).ring, Absorbed(l, k).sz, -1)
  {
    hide Absorbed, Covered, RingApart, RegionsApart, Ordered;
    JoinedShape(l, k);
    var l' := Absorbed(l, k);
    forall i, j | 0 <= i && j == i + 1 < |l'.ring| ensures l'.ring[i] + l'.sz[i] != l'.ring[j] {
      var i', j' := if i < k then i else i + 1, if i < k then j else j + 1;
      JoinedAt(l, k, i);
      JoinedAt(l, k, j);
      assert l.ring[i'] + l.sz[i'] != l.ring[j'];
    }
  }

  lemma {:induction false} SwallowRing(l: Layout, k: nat, bound: nat, brk: nat)
    requires Tiling(l, k, bound, brk) && 0 < k && k + 1 < |l.ring| && l.ring[k] + l.sz[k] == l.ring[k + 1]
    requires Covered(Absorbed(l, k), brk) && RingApart(Absorbed(l, k))
    ensures Tiling(Absorbed(l, k), -1, bound, brk)
  {
    hide Absorbed, Covered, RingApart, RegionsApart, RingFits, Coalesced;
    TilingIs(l, k, bound, brk);
    JoinedShape(l, k);
    SwallowFits(l, k, bound, brk);
    SwallowCoalesced(l, k, bound, brk);
    RegionsApartFrame(l, Absorbed(l, k));
  }

  lemma {:induction false} NoSlack(l: Layout, k: nat, bound: nat, brk: nat)
    requires Tiling(l, k, bound, brk) && (k + 1 < |l.ring| ==> l.ring[k] + l.sz[k] != l.ring[k + 1])
    ensures Tiling(l, -1, bound, brk)
  {
    hide Covered, RegionsApart, RingApart, Ordered;
  }

  ghost function Taken(l: Layout, a: nat, n: nat): Layout {
    l.(owned := l.owned[a := n], live := l.live + {a})
  }

  /** A region carved from a free cluster is apart from the others. */
  lemma {:induction false} TakenRegions(l: Layout, k: nat, n: nat, bound: nat, brk: nat)
    requires Tiling(l, -1, bound, brk) && 0 < k < |l.ring| && 0 < n <= l.sz[k]
    ensures l.ring[k] !in l.owned
    ensures RegionsFit(Taken(l, l.ring[k], n), bound, brk) && RegionsApart(Taken(l, l.ring[k], n))
  {
    hide Covered, Coalesced;
    assert l.ring[0] + l.sz[0] <= l.ring[k];
    var a := l.ring[k];
    forall b | b in l.owned ensures b + l.owned[b] <= a || a + n <= b {
      assert b + l.owned[b] <= l.ring[k] || l.ring[k] + l.sz[k] <= b;
    }
  }

  ghost function Without(l: Layout, k: nat): Layout
    requires k < |l.ring| == |l.sz|
  {
    l.(ring := RemoveAt(l.ring, k), sz := RemoveAt(l.sz, k))
  }

  lemma {:induction false} TakeAllCovers(l: Layout, k: nat, brk: nat)
    requires |l.ring| == |l.sz| && Covered(l, brk) && k < |l.ring| && l.ring[k] !in l.owned
    ensures Covered(Without(Taken(l, l.ring[k], l.sz[k]), k), brk)
  {
    var l' := Without(Taken(l, l.ring[k], l.sz[k]), k);
    forall x: nat | 1 <= x < brk ensures FreeBlock(l'.ring, l'.sz, x) || OwnedBlock(l'.owned, x) {
      var free, i := Locate(l, brk, x);
      if free && i != k {
        FreeAt(l'.ring, l'.sz, if i < k then i else i - 1, x);
      } else {
        OwnedAt(l'.owned, if free then l.ring[k] else i, x);
      }
    }
  }

  /** Dropping an entry keeps the order and separation of the rest. */
  lemma {:induction false} WithoutRing(l: Layout, k: nat, bound: nat)
    requires RingFits(l, bound) && Coalesced(l.ring, l.sz, -1) && 0 < k < |l.ring|
    ensures RingFits(Without(l, k), bound) && Coalesced(Without(l, k).ring, Without(l, k).sz, -1)
    ensures forall j :: 0 <= j < |l.ring| - 1 ==>
      Without(l, k).ring[j] == l.ring[if j < k then j else j + 1] && Without(l, k).sz[j] == l.sz[if j < k then j else j + 1]
  {
    var l' := Without(l, k);
    forall i, j | 0 <= i && j == i + 1 < |l'.ring| ensures l'.ring[i] + l'.sz[i] != l'.ring[j] {
      if j == k { assert l.ring[i] + l.sz[i] <= l.ring[k] < l.ring[k + 1]; }
    }
  }

  /** Taking the whole of number k. */
  lemma {:induction false} TakeAll(l: Layout, k: nat, bound: nat, brk: nat)
    requires Tiling(l, -1, bound, brk) && 0 < k < |l.ring|
    ensures l.ring[k] !in l.owned
    ensures Tiling(Without(Taken(l, l.ring[k], l.sz[k]), k), -1, bound, brk)
  {
    hide Covered, Coalesced, RegionsApart, Taken;
    TakenRegions(l, k, l.sz[k], bound, brk);
    TakeAllCovers(l, k, brk);
    TakenShape(l, l.ring[k], l.sz[k]);
    var t := Taken(l, l.ring[k], l.sz[k]);
    WithoutRing(t, k, bound);
    RegionsApartFrame(t, Without(t, k));
    TakeAllApart(l, k, bound, brk);
  }

  lemma {:induction false} TakenShape(l: Layout, a: nat, n: nat)
    ensures Taken(l, a, n).ring == l.ring && Taken(l, a, n).sz == l.sz
    ensures forall b :: b in Taken(l, a, n).owned <==> b in l.owned || b == a
    ensures forall b :: b in Taken(l, a, n).owned ==> Taken(l, a, n).owned[b] == if b == a then n else l.owned[b]
  {
  }

  lemma {:induction false} TakeAllApart(l: Layout, k: nat, bound: nat, brk: nat)
    requires Tiling(l, -1, bound, brk) && 0 < k < |l.ring|
    ensures RingApart(Without(Taken(l, l.ring[k], l.sz[k]), k))
  {
    hide Covered, RegionsApart;
    WithoutRing(l, k, bound);
  }

  ghost function Shorter(l: Layout, k: nat, n: nat): Layout
    requires k < |l.ring| == |l.sz| && n <= l.sz[k]
  {
    l.(ring := l.ring[k := l.ring[k] + n], sz := l.sz[k := l.sz[k] - n])
  }

  lemma {:induction false} TakeSomeCovers(l: Layout, k: nat, n: nat, brk: nat)
    requires |l.ring| == |l.sz| && Covered(l, brk) && k < |l.ring| && l.ring[k] !in l.owned && n <= l.sz[k]
    ensures Covered(Shorter(Taken(l, l.ring[k], n), k, n), brk)
  {
    var a := l.ring[k];
    var l' := Shorter(Taken(l, a, n), k, n);
    forall x: nat | 1 <= x < brk ensures FreeBlock(l'.ring, l'.sz, x) || OwnedBlock(l'.owned, x) {
      var free, i := Locate(l, brk, x);
      if free && !(i == k && x < a + n) {
        FreeAt(l'.ring, l'.sz, i, x);
      } else {
        OwnedAt(l'.owned, if free then a else i, x);
      }
    }
  }

  lemma {:induction false} ShorterRing(l: Layout, k: nat, n: nat, bound: nat)
    requires RingFits(l, bound) && Coalesced(l.ring, l.sz, -1) && 0 < k < |l.ring| && 0 < n < l.sz[k]
    ensures RingFits(Shorter(l, k, n), bound) && Coalesced(Shorter(l, k, n).ring, Shorter(l, k, n).sz, -1)
    ensures OffRing(l.ring, l.ring[k] + n)
  {
  }

  /** Taking the first n blocks of number k and leaving the rest. */
  lemma {:induction false} TakeSome(l: Layout, k: nat, n: nat, bound: nat, brk: nat)
    requires Tiling(l, -1, bound, brk) && 0 < k < |l.ring| && 0 < n < l.sz[k]
    ensures l.ring[k] !in l.owned && OffRing(l.ring, l.ring[k] + n)
    ensures Tiling(Shorter(Taken(l, l.ring[k], n), k, n), -1, bound, brk)
  {
    hide Covered, Coalesced, RegionsApart, Taken;
    TakenRegions(l, k, n, bound, brk);
    TakeSomeCovers(l, k, n, brk);
    TakenShape(l, l.ring[k], n);
    var t := Taken(l, l.ring[k], n);
    ShorterRing(t, k, n, bound);
    RegionsApartFrame(t, Shorter(t, k, n));
    TakeSomeApart(l, k, n, bound, brk);
  }

  lemma {:induction false} TakeSomeApart(l: Layout, k: nat, n: nat, bound: nat, brk: nat)
    requires Tiling(l, -1, bound, brk) && 0 < k < |l.ring| && 0 < n < l.sz[k]
    ensures RingApart(Shorter(Taken(l, l.ring[k], n), k, n))
  {
    hide Covered, RegionsApart;
  }

  /** The break grows by a region that is owned but not live. */
  lemma {:induction false} GrowGap(l: Layout, n: nat, bound: nat, brk: nat)
    requires Tiling(l, -1, bound, brk) && n > 0 && brk > 0
    ensures brk !in l.owned && brk !in l.live
    ensures Tiling(l.(owned := l.owned[brk := n]), -1, bound, brk + n)
  {
    var l' := l.(owned := l.owned[brk := n]);
    assert Covered(l', brk + n) by {
      forall x: nat | 1 <= x < brk + n ensures FreeBlock(l'.ring, l'.sz, x) || OwnedBlock(l'.owned, x) {
        if x >= brk {
          OwnedAt(l'.owned, brk, x);
        } else {
          var free, i := Locate(l, brk, x);
          if free { FreeAt(l'.ring, l'.sz, i, x); } else { OwnedAt(l'.owned, i, x); }
        }
      }
    }
  }

  /** A gap becomes a live cluster, and the bound rises past it. */
  lemma {:induction false} GapToLive(l: Layout, a: nat, bound: nat, bound': nat, brk: nat)
    requires Tiling(l, -1, bound, brk) && a in l.owned && bound <= bound' <= brk && a + l.owned[a] <= bound'
    ensures Tiling(l.(live := l.live + {a}), -1, bound', brk)
  {
    hide Covered, Coalesced, Ordered;
    var l' := l.(live := l.live + {a});
    RegionsApartFrame(l, l');
    assert Covered(l', brk) by { CoveredFrame(l, l', brk); }
  }

  lemma {:induction false} CoveredFrame(l: Layout, l': Layout, brk: nat)
    requires |l.ring| == |l.sz| && Covered(l, brk) && l'.ring == l.ring && l'.sz == l.sz && l'.owned == l.owned
    ensures Covered(l', brk)
  {
  }

  /** A gap that touches the last free cluster joins it. */
  lemma {:induction false} GapToLast(l: Layout, a: nat, bound: nat, bound': nat, brk: nat)
    requires Tiling(l, -1, bound, brk) && a in l.owned && |l.ring| > 1
    requires l.ring[|l.ring| - 1] + l.sz[|l.ring| - 1] == a && bound <= bound' <= brk && a + l.owned[a] <= bound'
    ensures Tiling(Longer(l, |l.ring| - 1, a), -1, bound', brk)
  {
    hide Covered, FreeBlock, RegionsApart, RingApart, Ordered;
    var k := |l.ring| - 1;
    LongerCovers(l, k, a, brk);
    LongerApart(l, k, a, bound, brk);
    FreedRegions(l, a, bound, brk);
    LongerOrdered(l.ring, l.sz, k, l.owned[a]);
    RegionsApartFrame(Freed(l, a), Longer(l, k, a));
  }

  /** The last free cluster, which ends at the break, goes back to the system. */
  lemma {:induction false} DropLast(l: Layout, k: nat, bound: nat, brk: nat)
    requires Tiling(l, -1, bound, brk) && 0 < k < |l.ring| && l.ring[k] + l.sz[k] == brk == bound
    ensures k == |l.ring| - 1 && Tiling(Without(l, k), -1, l.ring[k], l.ring[k])
  {
    LastAtBound(l, k, bound);
    DropCovers(l, k, brk);
    DropRegions(l, k, bound, brk);
    hide Covered;
    WithoutRing(l, k, bound);
    RegionsApartFrame(l, Without(l, k));
  }

  /** The cluster that ends at the bound is the last. */
  lemma {:induction false} LastAtBound(l: Layout, k: nat, bound: nat)
    requires RingFits(l, bound) && 0 < k < |l.ring| == |l.sz| && l.ring[k] + l.sz[k] == bound
    ensures k == |l.ring| - 1
  {
    var last := |l.ring| - 1;
    assert l.ring[last] + l.sz[last] <= bound;
  }

  lemma {:induction false} DropCovers(l: Layout, k: nat, brk: nat)
    requires |l.ring| == |l.sz| && Covered(l, brk) && Ordered(l.ring, l.sz) && k == |l.ring| - 1 && l.ring[k] <= brk
    ensures Covered(Without(l, k), l.ring[k])
  {
    var l' := Without(l, k);
    forall x: nat | 1 <= x < l.ring[k] ensures FreeBlock(l'.ring, l'.sz, x) || OwnedBlock(l'.owned, x) {
      var free, i := Locate(l, brk, x);
      if free { FreeAt(l'.ring, l'.sz, i, x); } else { OwnedAt(l'.owned, i, x); }
    }
  }

  lemma {:induction false} DropRegions(l: Layout, k: nat, bound: nat, brk: nat)
    requires Tiling(l, -1, bound, brk) && 0 < k < |l.ring| && l.ring[k] + l.sz[k] == brk == bound
    ensures RegionsFit(Without(l, k), l.ring[k], l.ring[k])
  {
    hide Covered, Ordered, Coalesced, RegionsApart;
    forall a | a in l.owned ensures a + l.owned[a] <= l.ring[k] {
      ApartHere(l, k, a);
    }
  }

  // ------------------------------------------- the owned regions decide the rest

  lemma {:induction false} ApartHere(l: Layout, k: nat, a: nat)
    requires |l.ring| == |l.sz| && RingApart(l) && k < |l.ring| && a in l.owned
    ensures a + l.owned[a] <= l.ring[k] || l.ring[k] + l.sz[k] <= a
  {
  }

  /** A block is free exactly when no region owns it. */
  lemma {:induction false} FreeIffUnowned(l: Layout, slack: int, bound: nat, brk: nat, x: nat)
    requires Tiling(l, slack, bound, brk) && 1 <= x < brk
    ensures FreeBlock(l.ring, l.sz, x) <==> !OwnedBlock(l.owned, x)
  {
    hide Coalesced, RegionsApart, Ordered;
    forall k, a | 0 <= k < |l.ring| && l.ring[k] <= x < l.ring[k] + l.sz[k] && a in l.owned
      ensures !(a <= x < a + l.owned[a])
    {
      ApartHere(l, k, a);
    }
  }
}
