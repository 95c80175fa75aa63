/** The allocator's free list, threaded through the block table: a circular,
    doubly linked list of free clusters in address order, headed by entry 0. */
module FreeList {

  /** union info, by the use each entry is put to. */
  datatype Info =
    | Free(size: nat, next: nat, prev: nat)
    | Busy(blocks: nat)
    | Frag(log: nat, nfree: nat, first: nat)

  type Table = seq<Info>

  /** ring lists the entries on the free list, the sentinel 0 first. */
  ghost predicate Linked(info: Table, ring: seq<nat>) {
    && OnTable(info, ring)
    && forall k :: 0 <= k < |ring| ==> Joined(info, ring, k)
  }

  /** The entries of the ring are free, and all but the sentinel have a size. */
  ghost predicate OnTable(info: Table, ring: seq<nat>) {
    && 1 <= |ring| && ring[0] == 0
    && (forall k :: 0 <= k < |ring| ==> ring[k] < |info| && info[ring[k]].Free?)
    && info[0].size == 0 && (forall k :: 1 <= k < |ring| ==> info[ring[k]].size > 0)
  }

  /** Number k on the ring points at its neighbours. */
  ghost predicate Joined(info: Table, ring: seq<nat>, k: nat)
    requires OnTable(info, ring) && k < |ring|
  {
    && info[ring[k]].next == (if k + 1 < |ring| then ring[k + 1] else ring[0])
    && info[ring[k]].prev == (if k > 0 then ring[k - 1] else ring[|ring| - 1])
  }

  /** The sizes of the clusters on the ring. */
  ghost function Sizes(info: Table, ring: seq<nat>): (sz: seq<nat>)
    requires OnTable(info, ring)
    ensures |sz| == |ring| && forall k :: 0 <= k < |ring| ==> sz[k] == info[ring[k]].size
  {
    seq(|ring|, k requires 0 <= k < |ring| => info[ring[k]].size)
  }

  /** Clusters follow each other in address order without overlap. */
  ghost predicate Ordered(ring: seq<nat>, sz: seq<nat>) {
    |ring| == |sz| && forall j, k :: 0 <= j < k < |ring| ==> ring[j] < ring[k] && ring[j] + sz[j] <= ring[k]
  }

  /** No two neighbouring clusters touch, except perhaps after number slack. */
  ghost predicate Coalesced(ring: seq<nat>, sz: seq<nat>, slack: int) {
    |ring| == |sz| && forall j, k :: 0 <= j && k == j + 1 < |ring| && j != slack ==> ring[j] + sz[j] != ring[k]
  }

  /** Block x lies in a free cluster. */
  ghost predicate FreeBlock(ring: seq<nat>, sz: seq<nat>, x: int)
    requires |ring| == |sz|
  {
    exists k :: 0 <= k < |ring| && ring[k] <= x < ring[k] + sz[k]
  }

  ghost predicate Distinct(ring: seq<nat>) {
    forall j, k :: 0 <= j < k < |ring| ==> ring[j] != ring[k]
  }

  // ------------------------------------------------------------- linking in

  function SetNext(info: Table, b: nat, x: nat): (r: Table)
    requires b < |info| && info[b].Free?
    ensures |r| == |info| && r[b] == Free(info[b].size, x, info[b].prev)
    ensures forall i :: 0 <= i < |info| && i != b ==> r[i] == info[i]
  {
    info[b := info[b].(next := x)]
  }

  function SetPrev(info: Table, b: nat, x: nat): (r: Table)
    requires b < |info| && info[b].Free?
    ensures |r| == |info| && r[b] == Free(info[b].size, info[b].next, x)
    ensures forall i :: 0 <= i < |info| && i != b ==> r[i] == info[i]
  {
    info[b := info[b].(prev := x)]
  }

  function SetSize(info: Table, b: nat, n: nat): (r: Table)
    requires b < |info| && info[b].Free?
    ensures |r| == |info| && r[b] == Free(n, info[b].next, info[b].prev)
    ensures forall i :: 0 <= i < |info| && i != b ==> r[i] == info[i]
  {
    info[b := info[b].(size := n)]
  }

  function InsertAfter(ring: seq<nat>, k: nat, b: nat): (r: seq<nat>)
    requires k < |ring|
    ensures |r| == |ring| + 1
    ensures forall j :: 0 <= j <= k ==> r[j] == ring[j]
    ensures r[k + 1] == b
    ensures forall j :: k + 1 < j < |r| ==> r[j] == ring[j - 1]
  {
    ring[..k + 1] + [b] + ring[k + 1..]
  }

  function RemoveAt(ring: seq<nat>, k: nat): (r: seq<nat>)
    requires k < |ring|
    ensures |r| == |ring| - 1
    ensures forall j :: 0 <= j < k ==> r[j] == ring[j]
    ensures forall j :: k <= j < |r| ==> r[j] == ring[j + 1]
  {
    ring[..k] + ring[k + 1..]
  }

  ghost predicate OffRing(ring: seq<nat>, b: nat) {
    forall k :: 0 <= k < |ring| ==> ring[k] != b
  }

  /** Entries off the ring, b aside, are untouched. */
  ghost predicate SameOff(info: Table, info': Table, ring: seq<nat>, b: nat) {
    |info'| == |info| && forall i :: 0 <= i < |info| && i != b && OffRing(ring, i) ==> info'[i] == info[i]
  }

  /** "Really link this block back into the free list." */
  function LinkIn(info: Table, i: nat, block: nat, blocks: nat): (r: Table)
    requires i < |info| && block < |info| && i != block && info[i].Free?
    requires info[i].next < |info| && info[i].next != block && info[info[i].next].Free?
    ensures |r| == |info|
  {
    var info1 := info[block := Free(blocks, info[i].next, i)];
    var info2 := SetNext(info1, i, block);
    SetPrev(info2, info2[block].next, block)
  }

  lemma {:induction false} FitsBetween(ring: seq<nat>, sz: seq<nat>, k: nat, block: nat, blocks: nat)
    requires Ordered(ring, sz) && k < |ring| && blocks > 0
    requires ring[k] < block && ring[k] + sz[k] <= block && (k + 1 < |ring| ==> block + blocks <= ring[k + 1])
    ensures OffRing(ring, block)
    ensures Ordered(InsertAfter(ring, k, block), InsertAfter(sz, k, blocks))
  {
  }

  lemma {:induction false} NextIs(info: Table, ring: seq<nat>, k: nat) returns (n: nat)
    requires Linked(info, ring) && k < |ring|
    ensures n == (if k + 1 < |ring| then k + 1 else 0)
    ensures n < |ring| && info[ring[k]].next == ring[n] && ring[n] < |info| && info[ring[n]].Free?
  {
    n := if k + 1 < |ring| then k + 1 else 0;
    assert Joined(info, ring, k);
  }

  /** What linking in does to the entry of ring[j]. */
  lemma {:induction false} LinkInEntry(info: Table, ring: seq<nat>, k: nat, n: nat, block: nat, blocks: nat, j: nat)
    requires Linked(info, ring) && Distinct(ring) && k < |ring| && n < |ring| && j < |ring|
    requires block < |info| && OffRing(ring, block) && info[ring[k]].next == ring[n]
    ensures LinkIn(info, ring[k], block, blocks)[ring[j]]
         == Free(info[ring[j]].size, if j == k then block else info[ring[j]].next,
                 if j == n then block else info[ring[j]].prev)
  {
  }

  lemma {:induction false} LinkInOthers(info: Table, ring: seq<nat>, k: nat, n: nat, block: nat, blocks: nat)
    requires Linked(info, ring) && k < |ring| && n < |ring|
    requires block < |info| && OffRing(ring, block) && info[ring[k]].next == ring[n]
    ensures SameOff(info, LinkIn(info, ring[k], block, blocks), ring, block)
    ensures LinkIn(info, ring[k], block, blocks)[block] == Free(blocks, ring[n], ring[k])
  {
  }

  /** The entries after a cluster was linked in between numbers k and n. */
  ghost predicate Spliced(info: Table, info': Table, ring: seq<nat>, k: nat, n: nat, block: nat, blocks: nat)
    requires OnTable(info, ring) && k < |ring| && n < |ring| && block < |info|
  {
    && |info'| == |info| && info'[block] == Free(blocks, ring[n], ring[k])
    && forall j :: 0 <= j < |ring| ==>
      info'[ring[j]] == Free(info[ring[j]].size, if j == k then block else info[ring[j]].next,
                             if j == n then block else info[ring[j]].prev)
  }

  lemma {:induction false} SplicedOn(info: Table, info': Table, ring: seq<nat>, k: nat, n: nat, block: nat, blocks: nat)
    requires OnTable(info, ring) && k < |ring| && n < |ring| && block < |info| && blocks > 0
    requires Spliced(info, info', ring, k, n, block, blocks)
    ensures OnTable(info', InsertAfter(ring, k, block))
    ensures Sizes(info', InsertAfter(ring, k, block)) == InsertAfter(Sizes(info, ring), k, blocks)
  {
    var ring' := InsertAfter(ring, k, block);
    forall j | 0 <= j < |ring'|
      ensures ring'[j] < |info'| && info'[ring'[j]].Free? && (j > 0 ==> info'[ring'[j]].size > 0)
    {
      assert j != k + 1 ==> ring'[j] == ring[if j <= k then j else j - 1];
    }
  }

  lemma {:induction false} SplicedJoined(info: Table, info': Table, ring: seq<nat>, k: nat, n: nat,
                                         block: nat, blocks: nat, j: nat)
    requires Linked(info, ring) && k < |ring| && block < |info| && j <= |ring|
    requires n == (if k + 1 < |ring| then k + 1 else 0)
    requires Spliced(info, info', ring, k, n, block, blocks) && OnTable(info', InsertAfter(ring, k, block))
    ensures Joined(info', InsertAfter(ring, k, block), j)
  {
    if j != k + 1 {
      var i := if j <= k then j else j - 1;
      assert InsertAfter(ring, k, block)[j] == ring[i] && Joined(info, ring, i);
    }
  }

  /** Linking a cluster in after number k. */
  lemma {:induction false} LinkedIn(info: Table, ring: seq<nat>, k: nat, block: nat, blocks: nat)
    requires Linked(info, ring) && Distinct(ring) && k < |ring| && block < |info| && blocks > 0
    requires OffRing(ring, block)
    ensures info[ring[k]].next < |info| && info[ring[k]].next != block && info[info[ring[k]].next].Free?
    ensures var info', ring' := LinkIn(info, ring[k], block, blocks), InsertAfter(ring, k, block);
      Linked(info', ring') && SameOff(info, info', ring, block)
      && Sizes(info', ring') == InsertAfter(Sizes(info, ring), k, blocks)
  {
    var n := NextIs(info, ring, k);
    hide LinkIn, Distinct, SameOff, InsertAfter, Joined;
    var info', ring' := LinkIn(info, ring[k], block, blocks), InsertAfter(ring, k, block);
    LinkInOthers(info, ring, k, n, block, blocks);
    forall j | 0 <= j < |ring|
      ensures info'[ring[j]] == Free(info[ring[j]].size, if j == k then block else info[ring[j]].next,
                                     if j == n then block else info[ring[j]].prev)
    {
      LinkInEntry(info, ring, k, n, block, blocks, j);
    }
    SplicedOn(info, info', ring, k, n, block, blocks);
    forall j | 0 <= j < |ring'| ensures Joined(info', ring', j) {
      SplicedJoined(info, info', ring, k, n, block, blocks, j);
    }
  }

  // --------------------------------------------------------------- unlinking

  /** The two neighbours of an entry are joined to each other. */
  function Unlink(info: Table, p: nat, n: nat): (r: Table)
    requires p < |info| && n < |info| && info[p].Free? && info[n].Free?
    ensures |r| == |info|
  {
    SetPrev(SetNext(info, p, n), n, p)
  }

  lemma {:induction false} NeighboursOf(info: Table, ring: seq<nat>, k: nat) returns (p: nat, n: nat)
    requires Linked(info, ring) && k < |ring|
    ensures p == (if k > 0 then k - 1 else |ring| - 1) && n == (if k + 1 < |ring| then k + 1 else 0)
    ensures info[ring[k]].prev == ring[p] && info[ring[k]].next == ring[n]
    ensures ring[p] < |info| && ring[n] < |info| && info[ring[p]].Free? && info[ring[n]].Free?
  {
    p := if k > 0 then k - 1 else |ring| - 1;
    n := if k + 1 < |ring| then k + 1 else 0;
    assert Joined(info, ring, k);
  }

  lemma {:induction false} UnlinkEntry(info: Table, ring: seq<nat>, p: nat, n: nat, j: nat)
    requires OnTable(info, ring) && Distinct(ring) && p < |ring| && n < |ring| && j < |ring|
    ensures Unlink(info, ring[p], ring[n])[ring[j]]
         == Free(info[ring[j]].size, if j == p then ring[n] else info[ring[j]].next,
                 if j == n then ring[p] else info[ring[j]].prev)
  {
  }

  lemma {:induction false} UnlinkOthers(info: Table, ring: seq<nat>, p: nat, n: nat)
    requires OnTable(info, ring) && p < |ring| && n < |ring|
    ensures SameOff(info, Unlink(info, ring[p], ring[n]), ring, 0)
  {
  }

  /** Taking number k off the ring. */
  lemma {:induction false} Unlinked(info: Table, ring: seq<nat>, k: nat)
    requires Linked(info, ring) && Distinct(ring) && 0 < k < |ring|
    ensures var e := info[ring[k]];
      e.prev < |info| && e.next < |info| && info[e.prev].Free? && info[e.next].Free?
    ensures var e := info[ring[k]]; var info', ring' := Unlink(info, e.prev, e.next), RemoveAt(ring, k);
      Linked(info', ring') && SameOff(info, info', ring, 0) && Sizes(info', ring') == RemoveAt(Sizes(info, ring), k)
  {
    hide Unlink, Distinct;
    var p, n := NeighboursOf(info, ring, k);
    var info' := Unlink(info, ring[p], ring[n]);
    UnlinkOthers(info, ring, p, n);
    forall j | 0 <= j < |ring|
      ensures info'[ring[j]] == Free(info[ring[j]].size, if j == p then ring[n] else info[ring[j]].next,
                                     if j == n then ring[p] else info[ring[j]].prev)
    {
      UnlinkEntry(info, ring, p, n, j);
    }
    RemoveJoined(info, info', ring, k, p, n);
  }

  lemma {:induction false} RemoveJoined(info: Table, info': Table, ring: seq<nat>, k: nat, p: nat, n: nat)
    requires Linked(info, ring) && 0 < k < |ring| && |info'| == |info| && p < |ring| && n < |ring|
    requires p == k - 1 && n == (if k + 1 < |ring| then k + 1 else 0)
    requires forall j :: 0 <= j < |ring| ==>
      info'[ring[j]] == Free(info[ring[j]].size, if j == p then ring[n] else info[ring[j]].next,
                             if j == n then ring[p] else info[ring[j]].prev)
    ensures Linked(info', RemoveAt(ring, k)) && Sizes(info', RemoveAt(ring, k)) == RemoveAt(Sizes(info, ring), k)
  {
    var ring' := RemoveAt(ring, k);
    forall j | 0 <= j < |ring'|
      ensures ring'[j] < |info'| && info'[ring'[j]].Free? && (j > 0 ==> info'[ring'[j]].size > 0)
      ensures info'[ring'[j]].size == info[ring[if j < k then j else j + 1]].size
    {
      assert ring'[j] == ring[if j < k then j else j + 1];
    }
    forall j | 0 <= j < |ring'| ensures Joined(info', ring', j) {
      var i := if j < k then j else j + 1;
      assert ring'[j] == ring[i] && Joined(info, ring, i);
    }
  }

  // ---------------------------------------------------------------- resizing

  lemma {:induction false} Resized(info: Table, ring: seq<nat>, k: nat, n: nat)
    requires Linked(info, ring) && Distinct(ring) && 0 < k < |ring| && n > 0
    ensures var info' := SetSize(info, ring[k], n);
      Linked(info', ring) && SameOff(info, info', ring, 0) && Sizes(info', ring) == Sizes(info, ring)[k := n]
  {
    var info' := SetSize(info, ring[k], n);
    forall j | 0 <= j < |ring| ensures Joined(info', ring, j) {
      assert Joined(info, ring, j);
    }
  }

  // --------------------------------------------------------- splitting a cluster

  /** "relink the tail end back into the free list": tail takes over from block. */
  function Relink(info: Table, block: nat, tail: nat, n: nat): (r: Table)
    requires block < |info| && tail < |info| && info[block].Free? && tail != block
    requires info[block].next < |info| && info[block].prev < |info|
    requires info[info[block].next].Free? && info[info[block].prev].Free?
    ensures |r| == |info|
  {
    var e := info[block];
    var info1 := info[tail := Free(n, e.next, e.prev)];
    SetNext(SetPrev(info1, e.next, tail), e.prev, tail)
  }

  lemma {:induction false} RelinkEntry(info: Table, ring: seq<nat>, k: nat, tail: nat, m: nat, p: nat, n: nat, j: nat)
    requires OnTable(info, ring) && Distinct(ring) && 0 < k < |ring| && p < |ring| && n < |ring| && j < |ring| && j != k
    requires tail < |info| && OffRing(ring, tail) && info[ring[k]].prev == ring[p] && info[ring[k]].next == ring[n]
    ensures Relink(info, ring[k], tail, m)[ring[j]]
         == Free(info[ring[j]].size, if j == p then tail else info[ring[j]].next,
                 if j == n then tail else info[ring[j]].prev)
  {
  }

  lemma {:induction false} RelinkOthers(info: Table, ring: seq<nat>, k: nat, tail: nat, m: nat, p: nat, n: nat)
    requires OnTable(info, ring) && 0 < k < |ring| && p < |ring| && n < |ring| && p != k && n != k
    requires tail < |info| && OffRing(ring, tail) && info[ring[k]].prev == ring[p] && info[ring[k]].next == ring[n]
    ensures SameOff(info, Relink(info, ring[k], tail, m), ring, tail)
    ensures Relink(info, ring[k], tail, m)[tail] == Free(m, ring[n], ring[p])
  {
  }

  lemma {:induction false} Relinked(info: Table, ring: seq<nat>, k: nat, tail: nat, m: nat)
    requires Linked(info, ring) && Distinct(ring) && 0 < k < |ring| && m > 0
    requires tail < |info| && OffRing(ring, tail)
    ensures var e := info[ring[k]];
      e.prev < |info| && e.next < |info| && info[e.prev].Free? && info[e.next].Free? && tail != ring[k]
    ensures var info', ring' := Relink(info, ring[k], tail, m), ring[k := tail];
      Linked(info', ring') && SameOff(info, info', ring, tail) && Sizes(info', ring') == Sizes(info, ring)[k := m]
  {
    hide Relink, Distinct;
    var p, n := NeighboursOf(info, ring, k);
    var info', ring' := Relink(info, ring[k], tail, m), ring[k := tail];
    RelinkOthers(info, ring, k, tail, m, p, n);
    forall j | 0 <= j < |ring| && j != k
      ensures info'[ring[j]] == Free(info[ring[j]].size, if j == p then tail else info[ring[j]].next,
                                     if j == n then tail else info[ring[j]].prev)
    {
      RelinkEntry(info, ring, k, tail, m, p, n, j);
    }
    forall j | 0 <= j < |ring'|
      ensures ring'[j] < |info'| && info'[ring'[j]].Free? && (j > 0 ==> info'[ring'[j]].size > 0)
      ensures info'[ring'[j]].size == Sizes(info, ring)[k := m][j]
    {
      assert j != k ==> ring'[j] == ring[j];
    }
    forall j | 0 <= j < |ring'| ensures Joined(info', ring', j) {
      if j != k {
        assert ring'[j] == ring[j] && Joined(info, ring, j);
      }
    }
  }
}
