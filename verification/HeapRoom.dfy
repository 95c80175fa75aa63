/** What can still be allocated, said of the owned regions alone: where blocks that belong
    to none follow one another, and how many more the system has. */
module HeapRoom {
  import opened FreeList
  import opened HeapLayout

  // ------------------------------------------------------------------ clear blocks

  /** None of the n blocks from a on belongs to a region. */
  ghost predicate Clear(owned: map<nat, nat>, a: nat, n: nat) {
    forall b :: b in owned ==> b + owned[b] <= a || a + n <= b
  }

  /** n such blocks lie one after another below limit. */
  ghost predicate Fits(owned: map<nat, nat>, limit: nat, n: nat) {
    exists a: nat :: 1 <= a && a + n <= limit && Clear(owned, a, n)
  }

  /** How many blocks just below top are clear. */
  ghost function Trailing(owned: map<nat, nat>, top: nat): (t: nat)
    ensures t <= top
  {
    if top <= 1 || !Clear(owned, top - 1, 1) then 0 else 1 + Trailing(owned, top - 1)
  }

  lemma {:induction false} TrailingMost(owned: map<nat, nat>, top: nat)
    requires forall b :: b in owned ==> owned[b] > 0
    ensures Trailing(owned, top) > 0 ==> Clear(owned, top - Trailing(owned, top), Trailing(owned, top))
    ensures Trailing(owned, top) + 1 < top ==> !Clear(owned, top - Trailing(owned, top) - 1, 1)
  {
    if !(top <= 1 || !Clear(owned, top - 1, 1)) { TrailingMost(owned, top - 1); }
  }

  // ---------------------------------------------------- clear blocks and clusters

  lemma {:induction false} ClusterClear(l: Layout, bound: nat, brk: nat, k: nat)
    requires Tiling(l, -1, bound, brk) && k < |l.ring|
    ensures Clear(l.owned, l.ring[k], l.sz[k])
  {
    hide Covered, Coalesced, Ordered, RegionsApart, RegionsFit, RingFits;
  }

  lemma {:induction false} ClearFirst(owned: map<nat, nat>, a: nat, n: nat, m: nat)
    requires Clear(owned, a, n) && m <= n
    ensures Clear(owned, a, m) && Clear(owned, a + m, n - m)
  {
  }

  /** A clear block is one of a free cluster. */
  lemma {:induction false} ClearFree(l: Layout, bound: nat, brk: nat, x: nat) returns (k: nat)
    requires Tiling(l, -1, bound, brk) && 1 <= x < brk && Clear(l.owned, x, 1)
    ensures 0 < k < |l.ring| == |l.sz| && l.ring[k] <= x < l.ring[k] + l.sz[k]
  {
    hide Coalesced, Ordered, RegionsApart, RegionsFit, RingApart;
    var free, i := Locate(l, brk, x);
    k := i;
  }

  /** Clusters that touch are one. */
  lemma {:induction false} Separate(l: Layout, bound: nat, brk: nat, j: nat, k: nat)
    requires Tiling(l, -1, bound, brk) && j < |l.ring| && 0 < k < |l.ring|
    ensures l.ring[j] < l.ring[k] ==> l.ring[j] + l.sz[j] < l.ring[k]
  {
    hide Covered, RegionsApart, RegionsFit, RingApart;
    if l.ring[j] < l.ring[k] {
      assert j < k;
      var next := j + 1;
      assert l.ring[j] + l.sz[j] != l.ring[next];
    }
  }

  /** Clear blocks one after another are in the same one. */
  lemma {:induction false} ClearWithin(l: Layout, bound: nat, brk: nat, a: nat, n: nat) returns (k: nat)
    requires Tiling(l, -1, bound, brk) && 1 <= a && 0 < n && a + n <= brk && Clear(l.owned, a, n)
    ensures 0 < k < |l.ring| == |l.sz| && l.ring[k] <= a && a + n <= l.ring[k] + l.sz[k]
    decreases n
  {
    hide *;
    ClearFirst(l.owned, a, n, n - 1);
    k := ClearFree(l, bound, brk, a + (n - 1));
    if n > 1 {
      var j := ClearWithin(l, bound, brk, a, n - 1);
      Separate(l, bound, brk, j, k);
    }
  }

  /** The free list has a cluster of n blocks exactly when n clear blocks follow one
      another. */
  lemma {:induction false} FitsIff(l: Layout, bound: nat, brk: nat, n: nat)
    requires Tiling(l, -1, bound, brk) && n > 0
    ensures |l.ring| == |l.sz|
    ensures Fits(l.owned, bound, n) <==> exists k :: 0 <= k < |l.sz| && l.sz[k] >= n
  {
    hide Clear, Covered, Coalesced, Ordered, RegionsApart, RegionsFit, RingApart;
    if a: nat :| 1 <= a && a + n <= bound && Clear(l.owned, a, n) {
      var k := ClearWithin(l, bound, brk, a, n);
      assert l.sz[k] >= n;
    }
    if k: nat :| k < |l.sz| && l.sz[k] >= n {
      ClusterClear(l, bound, brk, k);
      ClearFirst(l.owned, l.ring[k], l.sz[k], n);
      FirstFree(l, bound, brk, k);
    }
  }

  lemma {:induction false} FirstFree(l: Layout, bound: nat, brk: nat, k: nat)
    requires Tiling(l, -1, bound, brk) && k < |l.ring| && l.sz[k] > 0
    ensures 1 <= l.ring[k]
  {
    hide Covered, Coalesced, RegionsApart, RegionsFit, RingApart;
    if k > 0 { assert l.ring[0] < l.ring[k]; }
  }

  /** The clear blocks just below the break are those of the last cluster, if it reaches
      so far. */
  lemma {:induction false} TrailingIs(l: Layout, brk: nat)
    requires Tiling(l, -1, brk, brk) && brk >= 1
    ensures |l.ring| == |l.sz| >= 1
    ensures var last := |l.ring| - 1;
      Trailing(l.owned, brk) == if l.ring[last] + l.sz[last] == brk then l.sz[last] else 0
  {
    hide *;
    RingIs(l, brk, brk);
    var last := |l.ring| - 1;
    if l.ring[last] + l.sz[last] == brk {
      ClusterClear(l, brk, brk, last);
      FirstFree(l, brk, brk, last);
      NoneBefore(l, brk, brk, last);
      TrailingAll(l.owned, l.ring[last], l.sz[last]);
    } else if brk > 1 && Clear(l.owned, brk - 1, 1) {
      var k := ClearFree(l, brk, brk, brk - 1);
      EndBelow(l, brk, brk, k);
      assert false;
    } else {
      NoneTrail(l.owned, brk);
    }
  }

  lemma {:induction false} NoneTrail(owned: map<nat, nat>, top: nat)
    requires !(top > 1 && Clear(owned, top - 1, 1))
    ensures Trailing(owned, top) == 0
  {
  }

  lemma {:induction false} RingIs(l: Layout, bound: nat, brk: nat)
    requires Tiling(l, -1, bound, brk)
    ensures 1 <= |l.ring| == |l.sz| && l.ring[0] == 0 == l.sz[0]
    ensures forall k :: 1 <= k < |l.sz| ==> l.sz[k] > 0
    ensures forall k :: 0 <= k < |l.ring| ==> l.ring[k] + l.sz[k] <= bound
  {
    hide Covered, Coalesced, RegionsApart, RegionsFit, RingApart, Ordered;
  }

  lemma {:induction false} EndBelow(l: Layout, bound: nat, brk: nat, k: nat)
    requires Tiling(l, -1, bound, brk) && k < |l.ring|
    ensures |l.ring| == |l.sz| && l.ring[k] + l.sz[k] <= l.ring[|l.ring| - 1] + l.sz[|l.ring| - 1]
  {
    hide Covered, Coalesced, RegionsApart, RegionsFit, RingApart;
    if k < |l.ring| - 1 { assert l.ring[k] + l.sz[k] <= l.ring[|l.ring| - 1]; }
  }

  /** The block before a cluster is not clear. */
  lemma {:induction false} NoneBefore(l: Layout, bound: nat, brk: nat, k: nat)
    requires Tiling(l, -1, bound, brk) && 0 < k < |l.ring| && 1 <= l.ring[k] <= brk
    ensures Trailing(l.owned, l.ring[k]) == 0
  {
    hide *;
    if l.ring[k] > 1 && Clear(l.owned, l.ring[k] - 1, 1) {
      var j := ClearFree(l, bound, brk, l.ring[k] - 1);
      Separate(l, bound, brk, j, k);
      assert false;
    }
    NoneTrail(l.owned, l.ring[k]);
  }

  lemma {:induction false} TrailingAll(owned: map<nat, nat>, a: nat, n: nat)
    requires Clear(owned, a, n) && 1 <= a && Trailing(owned, a) == 0
    ensures Trailing(owned, a + n) == n
    decreases n
  {
    if n > 0 {
      ClearFirst(owned, a, n, n - 1);
      TrailingAll(owned, a, n - 1);
    }
  }

  // ------------------------------------------------------------------ the system

  const BLOCKSIZE: nat := 4096

  /** BLOCKIFY */
  function Blockify(size: nat): nat {
    (size + BLOCKSIZE - 1) / BLOCKSIZE
  }

  /** Blocks taken by a table of n entries of twelve bytes. */
  function TableBlocks(n: nat): nat {
    Blockify(12 * n)
  }

  /** The table's size, doubled until it has limit entries at least: no more often than it
      takes. */
  function Doubled(size: nat, limit: nat): (d: nat)
    requires size > 0
    ensures d >= limit && (d == size || size <= d < 2 * limit)
    decreases limit - size
  {
    if limit <= size then size else Doubled(2 * size, limit)
  }

  /** What n more blocks take of the system, with a larger table if the present one is too
      small. */
  function Core(brk: nat, n: nat, size: nat): nat
    requires size > 0
  {
    n + if brk + n > size then TableBlocks(Doubled(size, brk + n)) else 0
  }

  lemma {:induction false} DoubledMono(size: nat, limit: nat, limit': nat)
    requires size > 0 && limit <= limit'
    ensures Doubled(size, limit) <= Doubled(size, limit')
    decreases limit' - size
  {
    if limit > size { DoubledMono(2 * size, limit, limit'); }
  }

  /** More blocks take more. */
  lemma {:induction false} CoreMono(brk: nat, n: nat, n': nat, size: nat)
    requires size > 0 && n <= n'
    ensures Core(brk, n, size) <= Core(brk, n', size)
  {
    hide Doubled, TableBlocks;
    if brk + n > size {
      DoubledMono(size, brk + n, brk + n');
      TableMono(Doubled(size, brk + n), Doubled(size, brk + n'));
    }
  }

  lemma {:induction false} TableMono(n: nat, n': nat)
    requires n <= n'
    ensures TableBlocks(n) <= TableBlocks(n')
  {
  }

  /** The clear blocks that new ones from the system would continue. */
  ghost function Spare(owned: map<nat, nat>, heaplimit: nat, brk: nat): nat {
    if heaplimit == brk then Trailing(owned, brk) else 0
  }

  /** Neither the blocks below heaplimit nor the system have room for so many: not even
      for what is missing of them at the end. */
  ghost predicate NoRoom(owned: map<nat, nat>, heaplimit: nat, brk: nat, size: nat, capacity: nat, blocks: nat) {
    && size > 0 && !Fits(owned, heaplimit, blocks)
    && Spare(owned, heaplimit, brk) <= blocks && brk + Core(brk, blocks - Spare(owned, heaplimit, brk), size) > capacity
  }

  lemma {:induction false} CoreIs(brk: nat, n: nat, size: nat)
    requires size > 0
    ensures Core(brk, n, size) == n + if brk + n > size then TableBlocks(Doubled(size, brk + n)) else 0
  {
  }

  lemma {:induction false} SpareIs(l: Layout, heaplimit: nat, brk: nat)
    requires Tiling(l, -1, heaplimit, brk) && brk >= 1
    ensures |l.ring| == |l.sz| >= 1
    ensures var last := |l.ring| - 1;
      Spare(l.owned, heaplimit, brk) == if l.ring[last] + l.sz[last] == heaplimit == brk then l.sz[last] else 0
  {
    hide Tiling, Trailing;
    RingIs(l, heaplimit, brk);
    if heaplimit == brk { TrailingIs(l, brk); }
  }

  // ------------------------------------------------------------------- the next fit

  /** In a circle from start on, a is not met before r. */
  predicate NotBefore(start: nat, r: nat, a: nat) {
    if r >= start then a >= r || a < start else r <= a < start
  }

  /** n clear blocks begin at r, and nowhere between start and r. */
  ghost predicate NextFit(owned: map<nat, nat>, limit: nat, start: nat, n: nat, r: nat) {
    && 1 <= r && r + n <= limit && Clear(owned, r, n)
    && forall a: nat :: 1 <= a && a + n <= limit && Clear(owned, a, n) ==> NotBefore(start, r, a)
  }

  /** The first cluster of n blocks in a circle from number s on. */
  lemma {:induction false} FirstFit(l: Layout, limit: nat, brk: nat, s: nat, k: nat, n: nat)
    requires Tiling(l, -1, limit, brk) && s < |l.ring| == |l.sz| && k < |l.ring| && 0 < n <= l.sz[k]
    requires if k < s then forall j :: 0 <= j < k || s <= j < |l.sz| ==> l.sz[j] < n
             else forall j :: s <= j < k ==> l.sz[j] < n
    ensures NextFit(l.owned, limit, l.ring[s], n, l.ring[k])
  {
    hide Covered, Coalesced, RegionsApart, RegionsFit, RingApart, Clear;
    FirstFree(l, limit, brk, k);
    ClusterClear(l, limit, brk, k);
    ClearFirst(l.owned, l.ring[k], l.sz[k], n);
    forall a: nat | 1 <= a && a + n <= limit && Clear(l.owned, a, n) ensures NotBefore(l.ring[s], l.ring[k], a) {
      var j := ClearWithin(l, limit, brk, a, n);
      assert l.sz[j] >= n;
    }
  }

  // ------------------------------------------------------------------- giving back

  const FINAL_FREE_BLOCKS: nat := 8

  /** The clear blocks at the end are many enough to be given back, and block is one of
      them. */
  ghost predicate Releases(owned: map<nat, nat>, heaplimit: nat, brk: nat, block: nat) {
    heaplimit == brk && Trailing(owned, brk) >= FINAL_FREE_BLOCKS && brk - Trailing(owned, brk) <= block
  }

  ghost function BreakAfter(owned: map<nat, nat>, heaplimit: nat, brk: nat, block: nat): nat {
    if Releases(owned, heaplimit, brk, block) then brk - Trailing(owned, brk) else brk
  }

  /** What that means of the cluster that the block has joined. */
  lemma {:induction false} ReleasesIs(l: Layout, bound: nat, heaplimit: nat, brk: nat, k: nat, block: nat)
    requires Tiling(l, -1, bound, brk) && 0 < k < |l.ring| && l.ring[k] <= block < l.ring[k] + l.sz[k]
    requires heaplimit == bound || brk != heaplimit
    ensures |l.ring| == |l.sz|
    ensures Releases(l.owned, heaplimit, brk, block) <==> l.sz[k] >= FINAL_FREE_BLOCKS && l.ring[k] + l.sz[k] == heaplimit == brk
    ensures BreakAfter(l.owned, heaplimit, brk, block) == if Releases(l.owned, heaplimit, brk, block) then l.ring[k] else brk
  {
    hide *;
    RingIs(l, bound, brk);
    TilingIs(l, -1, bound, brk);
    ReleasesMeans(l.owned, heaplimit, brk, block);
    if heaplimit == brk {
      TrailingIs(l, brk);
      EndBelow(l, bound, brk, k);
      LastOnly(l, bound, brk, k, block);
    }
  }

  lemma {:induction false} ReleasesMeans(owned: map<nat, nat>, heaplimit: nat, brk: nat, block: nat)
    ensures Releases(owned, heaplimit, brk, block)
      <==> heaplimit == brk && Trailing(owned, brk) >= FINAL_FREE_BLOCKS && brk - Trailing(owned, brk) <= block
    ensures BreakAfter(owned, heaplimit, brk, block) == (if Releases(owned, heaplimit, brk, block) then brk - Trailing(owned, brk) else brk)
    ensures FINAL_FREE_BLOCKS > 0
  {
  }

  /** A cluster that reaches into the last one, or as far, is the last one. */
  lemma {:induction false} LastOnly(l: Layout, bound: nat, brk: nat, k: nat, x: nat)
    requires Tiling(l, -1, bound, brk) && k < |l.ring| && l.ring[k] <= x < l.ring[k] + l.sz[k]
    ensures |l.ring| == |l.sz| >= 1
    ensures var last := |l.ring| - 1;
      (l.ring[last] <= x || l.ring[k] + l.sz[k] == l.ring[last] + l.sz[last]) && l.sz[last] > 0 ==> k == last
  {
    hide Covered, Coalesced, RegionsApart, RegionsFit, RingApart;
    if k < |l.ring| - 1 { assert l.ring[k] + l.sz[k] <= l.ring[|l.ring| - 1]; }
  }
}
