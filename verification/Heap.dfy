/** The cluster level of the allocator: whole blocks, a free list kept sorted
    and fully coalesced, and a block table that itself lives in the heap. */
module Heap {
  import opened FreeList
  import opened HeapLayout
  import opened HeapRoom

  /** The bytes of one block. */
  type Page = p: seq<int> | |p| == 4096 witness seq(4096, _ => 0)

  const INITIAL_ENTRIES: nat := 1024

  function BlankPage(): Page {
    seq(4096, _ => 0)
  }

  // -------------------------------------------------- the table and the layout

  ghost predicate LiveEntry(info: Table, a: nat, n: nat) {
    a < |info| && (info[a] == Busy(n) || (info[a].Frag? && n == 1))
  }

  /** The table describes the layout. */
  ghost predicate Matches(info: Table, l: Layout) {
    && Linked(info, l.ring) && l.sz == Sizes(info, l.ring)
    && forall a :: a in l.live ==> a in l.owned && LiveEntry(info, a, l.owned[a])
  }

  /** What the cluster level promises about its live clusters. */
  ghost predicate LiveFit(info: Table, l: Layout, brk: nat, mem: seq<Page>) {
    && (forall a :: a in l.live ==> a in l.owned && a < |info| && LiveEntry(info, a, l.owned[a]))
    && (forall a :: a in l.live ==> 0 < a && l.owned[a] > 0 && a + l.owned[a] <= brk)
    && (forall a, b :: a in l.live && b in l.live && a < b ==> a + l.owned[a] <= b)
    && brk <= |mem|
  }

  /** The entries of live clusters are as they were. */
  ghost predicate LiveSame(info: Table, info': Table, live: set<nat>) {
    forall a :: a in live ==> a < |info| && a < |info'| && info'[a] == info[a]
  }

  ghost predicate Described(info: Table, l: Layout, slack: int, bound: nat, brk: nat) {
    Matches(info, l) && Tiling(l, slack, bound, brk) && bound <= |info|
  }

  lemma {:induction false} LiveOffRing(l: Layout, slack: int, bound: nat, brk: nat, a: nat)
    requires Tiling(l, slack, bound, brk) && a in l.owned
    ensures OffRing(l.ring, a) && a > 0 && l.owned[a] > 0 && a + l.owned[a] <= brk
  {
    hide Covered, Coalesced, RegionsApart, Ordered;
    forall k | 0 <= k < |l.ring| ensures l.ring[k] != a {
      assert a + l.owned[a] <= l.ring[k] || l.ring[k] + l.sz[k] <= a;
    }
  }

  /** A change confined to the ring and entry b keeps the live entries. */
  lemma {:induction false} LiveKept(info: Table, info': Table, l: Layout, slack: int, bound: nat, brk: nat, b: nat)
    requires Described(info, l, slack, bound, brk) && SameOff(info, info', l.ring, b)
    ensures forall a :: a in l.live && a != b ==> a in l.owned && LiveEntry(info', a, l.owned[a])
    ensures LiveSame(info, info', l.live - {b})
  {
    hide Tiling, Linked;
    forall a | a in l.live && a != b ensures a in l.owned && LiveEntry(info', a, l.owned[a]) && info'[a] == info[a] {
      LiveOffRing(l, slack, bound, brk, a);
    }
  }

  lemma {:induction false} DescribedIs(info: Table, l: Layout, slack: int, bound: nat, brk: nat)
    requires Described(info, l, slack, bound, brk)
    ensures Linked(info, l.ring) && OnTable(info, l.ring) && l.sz == Sizes(info, l.ring) && Tiling(l, slack, bound, brk)
    ensures 1 <= |l.ring| == |l.sz| && Ordered(l.ring, l.sz) && Distinct(l.ring) && bound <= |info| && bound <= brk
    ensures l.ring[0] == 0 == l.sz[0]
    ensures forall k :: 1 <= k < |l.ring| ==> l.sz[k] > 0
    ensures forall k :: 0 <= k < |l.ring| ==> l.ring[k] < |info| && info[l.ring[k]].Free? && info[l.ring[k]].size == l.sz[k]
    ensures forall k :: 0 <= k < |l.ring| ==> l.ring[k] + l.sz[k] <= bound
    ensures forall j, k :: 0 <= j < k < |l.ring| ==> l.ring[j] < l.ring[k]
    ensures forall a :: a in l.live ==> a in l.owned && a + l.owned[a] <= bound && a > 0 && l.owned[a] > 0
  {
  }

  /** Step one of free, onto the cluster before. */
  lemma {:induction false} OntoDescribed(info: Table, l: Layout, k: nat, a: nat, bound: nat, brk: nat)
    requires Described(info, l, -1, bound, brk) && a in l.live && Follows(l, k, a) && l.ring[k] + l.sz[k] == a
    ensures k > 0 && Described(SetSize(info, l.ring[k], l.sz[k] + l.owned[a]), Longer(l, k, a), k, bound, brk)
    ensures LiveSame(info, SetSize(info, l.ring[k], l.sz[k] + l.owned[a]), l.live - {a})
  {
    hide Tiling, Linked, Longer, Ordered;
    DescribedIs(info, l, -1, bound, brk);
    FreeOnto(l, k, a, bound, brk);
    Resized(info, l.ring, k, l.sz[k] + l.owned[a]);
    LiveKept(info, SetSize(info, l.ring[k], l.sz[k] + l.owned[a]), l, -1, bound, brk, 0);
    LongerIs(l, k, a);
  }

  lemma {:induction false} LongerIs(l: Layout, k: nat, a: nat)
    requires k < |l.ring| == |l.sz| && a in l.owned
    ensures Longer(l, k, a) == Layout(l.ring, l.sz[k := l.sz[k] + l.owned[a]], l.owned - {a}, l.live - {a})
  {
  }

  /** Step one of free, as a new entry. */
  lemma {:induction false} NewDescribed(info: Table, l: Layout, k: nat, a: nat, bound: nat, brk: nat)
    requires Described(info, l, -1, bound, brk) && a in l.live && Follows(l, k, a) && l.ring[k] + l.sz[k] != a
    ensures a < |info| && l.ring[k] != a && info[l.ring[k]].next < |info| && info[l.ring[k]].next != a
    ensures info[info[l.ring[k]].next].Free?
    ensures Described(LinkIn(info, l.ring[k], a, l.owned[a]), WithNew(l, k, a), k + 1, bound, brk)
    ensures LiveSame(info, LinkIn(info, l.ring[k], a, l.owned[a]), l.live - {a})
  {
    hide Tiling, Linked, WithNew, LinkIn, Ordered;
    DescribedIs(info, l, -1, bound, brk);
    FreeNew(l, k, a, bound, brk);
    LinkedIn(info, l.ring, k, a, l.owned[a]);
    LiveKept(info, LinkIn(info, l.ring[k], a, l.owned[a]), l, -1, bound, brk, a);
    WithNewIs(l, k, a);
  }

  lemma {:induction false} WithNewIs(l: Layout, k: nat, a: nat)
    requires k < |l.ring| == |l.sz| && a in l.owned
    ensures WithNew(l, k, a)
         == Layout(InsertAfter(l.ring, k, a), InsertAfter(l.sz, k, l.owned[a]), l.owned - {a}, l.live - {a})
  {
  }

  /** The table after cluster b has swallowed the next one on the list. */
  function SwallowNext(info: Table, b: nat): (r: Table)
    requires b < |info| && info[b].Free? && info[b].next < |info| && info[info[b].next].Free?
    requires info[b].next != b && info[info[b].next].next < |info| && info[info[info[b].next].next].Free?
    ensures |r| == |info|
  {
    var n := info[b].next;
    var info1 := SetSize(info, b, info[b].size + info[n].size);
    var info2 := SetNext(info1, b, info1[n].next);
    SetPrev(info2, info2[b].next, b)
  }

  lemma {:induction false} SwallowIsUnlink(info: Table, ring: seq<nat>, k: nat)
    requires Linked(info, ring) && Distinct(ring) && 0 < k && k + 1 < |ring|
    ensures var b := ring[k]; var n := ring[k + 1];
      && b < |info| && info[b].next == n && b != n && info[b].Free? && n < |info| && info[n].Free?
      && info[n].next < |info| && info[info[n].next].Free?
      && var info1 := SetSize(info, b, info[b].size + info[n].size);
      && info1[n].prev == b && info1[n].next == info[n].next && info1[b].Free? && info1[info[n].next].Free?
      && SwallowNext(info, b) == Unlink(info1, info1[n].prev, info1[n].next)
  {
    assert Joined(info, ring, k) && Joined(info, ring, k + 1);
    assert ring[k] != ring[k + 1];
  }

  /** Step two of free. */
  lemma {:induction false} SwallowDescribed(info: Table, l: Layout, k: nat, bound: nat, brk: nat)
    requires Described(info, l, k, bound, brk) && 0 < k && k + 1 < |l.ring| && l.ring[k] + l.sz[k] == l.ring[k + 1]
    ensures var b := l.ring[k];
      b < |info| && info[b].Free? && info[b].next == l.ring[k + 1] != b && l.ring[k + 1] < |info| && info[l.ring[k + 1]].Free?
      && info[l.ring[k + 1]].next < |info| && info[info[l.ring[k + 1]].next].Free?
      && Described(SwallowNext(info, b), Absorbed(l, k), -1, bound, brk)
    ensures LiveSame(info, SwallowNext(info, l.ring[k]), l.live)
  {
    hide Tiling, Linked, Absorbed, SwallowNext, Ordered, Unlink, Distinct;
    DescribedIs(info, l, k, bound, brk);
    Swallow(l, k, bound, brk);
    SwallowIsUnlink(info, l.ring, k);
    var n := l.sz[k] + l.sz[k + 1];
    Resized(info, l.ring, k, n);
    var info1 := SetSize(info, l.ring[k], n);
    Unlinked(info1, l.ring, k + 1);
    LiveKeptTwice(info, info1, SwallowNext(info, l.ring[k]), l, k, bound, brk);
    JoinedIs(l, k);
  }

  lemma {:induction false} LiveKeptTwice(info: Table, info1: Table, info2: Table, l: Layout, slack: int, bound: nat, brk: nat)
    requires Described(info, l, slack, bound, brk)
    requires SameOff(info, info1, l.ring, 0) && SameOff(info1, info2, l.ring, 0)
    ensures forall a :: a in l.live ==> a in l.owned && LiveEntry(info2, a, l.owned[a])
    ensures LiveSame(info, info2, l.live)
  {
    hide Tiling, Linked;
    forall a | a in l.live ensures a in l.owned && LiveEntry(info2, a, l.owned[a]) && info2[a] == info[a] {
      LiveOffRing(l, slack, bound, brk, a);
    }
  }

  lemma {:induction false} JoinedIs(l: Layout, k: nat)
    requires k + 1 < |l.ring| == |l.sz|
    ensures Absorbed(l, k) == Layout(RemoveAt(l.ring, k + 1), RemoveAt(l.sz[k := l.sz[k] + l.sz[k + 1]], k + 1), l.owned, l.live)
  {
  }

  /** Giving the last cluster back. */
  lemma {:induction false} DropDescribed(info: Table, l: Layout, k: nat, bound: nat, brk: nat)
    requires Described(info, l, -1, bound, brk) && 0 < k < |l.ring| && l.ring[k] + l.sz[k] == brk == bound
    ensures var e := info[l.ring[k]];
      e.prev < |info| && e.next < |info| && info[e.prev].Free? && info[e.next].Free?
      && e.prev == l.ring[k - 1]
      && Described(Unlink(info, e.prev, e.next), Without(l, k), -1, l.ring[k], l.ring[k])
    ensures LiveSame(info, Unlink(info, info[l.ring[k]].prev, info[l.ring[k]].next), l.live)
  {
    hide Tiling, Linked, Without, Ordered, Unlink, Distinct;
    DescribedIs(info, l, -1, bound, brk);
    DropLast(l, k, bound, brk);
    var p, n := NeighboursOf(info, l.ring, k);
    Unlinked(info, l.ring, k);
    LiveKept(info, Unlink(info, info[l.ring[k]].prev, info[l.ring[k]].next), l, -1, bound, brk, 0);
    WithoutIs(l, k);
  }

  lemma {:induction false} WithoutIs(l: Layout, k: nat)
    requires k < |l.ring| == |l.sz|
    ensures Without(l, k) == Layout(RemoveAt(l.ring, k), RemoveAt(l.sz, k), l.owned, l.live)
  {
  }

  // ------------------------------------------------------------- taking a cluster

  /** Taking all of cluster k: unlink it and mark it busy. */
  lemma {:induction false} TakeAllDescribed(info: Table, l: Layout, k: nat, bound: nat, brk: nat)
    requires Described(info, l, -1, bound, brk) && 0 < k < |l.ring|
    ensures var a := l.ring[k]; var e := info[a];
      e.prev < |info| && e.next < |info| && info[e.prev].Free? && info[e.next].Free? && a !in l.owned
      && Described(Unlink(info, e.prev, e.next)[a := Busy(l.sz[k])], Without(Taken(l, a, l.sz[k]), k), -1, bound, brk)
    ensures LiveSame(info, Unlink(info, info[l.ring[k]].prev, info[l.ring[k]].next)[l.ring[k] := Busy(l.sz[k])], l.live)
  {
    hide Tiling, Linked, Without, Ordered, Unlink, Distinct, Taken, Described, Matches, LiveEntry, LiveSame, SameOff;
    DescribedIs(info, l, -1, bound, brk);
    TakeAll(l, k, bound, brk);
    var p, n := NeighboursOf(info, l.ring, k);
    Unlinked(info, l.ring, k);
    var a, m := l.ring[k], l.sz[k];
    var info1 := Unlink(info, info[a].prev, info[a].next);
    TakenIs(l, a, m);
    var l2 := Without(Taken(l, a, m), k);
    WithoutIs(Taken(l, a, m), k);
    RemovedOff(l.ring, k);
    MarkBusy(info1, RemoveAt(l.ring, k), a, m);
    TakenLive(info, info1, l, k, bound, brk);
    DescribedFrom(info1[a := Busy(m)], l2, bound, brk);
  }

  lemma {:induction false} DescribedFrom(info: Table, l: Layout, bound: nat, brk: nat)
    requires Linked(info, l.ring) && l.sz == Sizes(info, l.ring) && Tiling(l, -1, bound, brk) && bound <= |info|
    requires forall a :: a in l.live ==> a in l.owned && LiveEntry(info, a, l.owned[a])
    ensures Described(info, l, -1, bound, brk)
  {
    hide Tiling, Linked, LiveEntry;
  }

  lemma {:induction false} TakenLive(info: Table, info1: Table, l: Layout, k: nat, bound: nat, brk: nat)
    requires Described(info, l, -1, bound, brk) && 0 < k < |l.ring| && SameOff(info, info1, l.ring, 0)
    requires l.ring[k] < |info1| && k < |l.sz| && l.ring[k] !in l.owned
    ensures var a, m := l.ring[k], l.sz[k];
      && LiveSame(info, info1[a := Busy(m)], l.live)
      && forall b :: b in l.live + {a} ==> b in l.owned[a := m] && LiveEntry(info1[a := Busy(m)], b, l.owned[a := m][b])
  {
    hide Tiling, Linked;
    DescribedIs(info, l, -1, bound, brk);
    LiveKept(info, info1, l, -1, bound, brk, 0);
    var a, m := l.ring[k], l.sz[k];
    forall b | b in l.live
      ensures b in l.owned[a := m] && LiveEntry(info1[a := Busy(m)], b, l.owned[a := m][b]) && info1[a := Busy(m)][b] == info[b]
    {
      assert b in l.owned && b != a && LiveEntry(info1, b, l.owned[b]);
    }
  }

  lemma {:induction false} TakenIs(l: Layout, a: nat, n: nat)
    ensures Taken(l, a, n) == Layout(l.ring, l.sz, l.owned[a := n], l.live + {a})
  {
  }

  lemma {:induction false} RemovedOff(ring: seq<nat>, k: nat)
    requires Distinct(ring) && k < |ring|
    ensures OffRing(RemoveAt(ring, k), ring[k])
  {
  }

  /** Writing a busy entry off the ring disturbs nothing on it. */
  lemma {:induction false} MarkBusy(info: Table, ring: seq<nat>, a: nat, n: nat)
    requires Linked(info, ring) && OffRing(ring, a) && a < |info|
    ensures Linked(info[a := Busy(n)], ring) && Sizes(info[a := Busy(n)], ring) == Sizes(info, ring)
  {
    var info' := info[a := Busy(n)];
    forall j | 0 <= j < |ring| ensures Joined(info', ring, j) {
      assert Joined(info, ring, j);
    }
  }

  /** Rewriting the entry of a live single block. */
  lemma {:induction false} UseDescribed(info: Table, l: Layout, bound: nat, brk: nat, a: nat, e: Info)
    requires Described(info, l, -1, bound, brk) && a in l.live && a in l.owned && l.owned[a] == 1 && (e == Busy(1) || e.Frag?)
    ensures a < |info| && Described(info[a := e], l, -1, bound, brk)
  {
    hide Tiling;
    LiveOffRing(l, -1, bound, brk, a);
    var info' := info[a := e];
    forall j | 0 <= j < |l.ring| ensures Joined(info', l.ring, j) {
      assert Joined(info, l.ring, j);
    }
  }

  /** Marking the cluster just taken completes the description. */
  lemma {:induction false} MarkTaken(info: Table, l: Layout, a: nat, bound: nat, brk: nat)
    requires Linked(info, l.ring) && l.sz == Sizes(info, l.ring) && Tiling(l, -1, bound, brk) && bound <= |info|
    requires a in l.live && a in l.owned && a < |info| && OffRing(l.ring, a)
    requires forall b :: b in l.live && b != a ==> b in l.owned && LiveEntry(info, b, l.owned[b])
    ensures Described(info[a := Busy(l.owned[a])], l, -1, bound, brk)
  {
    hide Tiling, Linked;
    MarkBusy(info, l.ring, a, l.owned[a]);
  }

  /** Taking the first n blocks of cluster k: relink its tail and mark it busy. */
  lemma {:induction false} TakeSomeDescribed(info: Table, l: Layout, k: nat, n: nat, bound: nat, brk: nat)
    requires Described(info, l, -1, bound, brk) && 0 < k < |l.ring| && 0 < n < l.sz[k]
    ensures var a := l.ring[k]; var e := info[a];
      e.prev < |info| && e.next < |info| && info[e.prev].Free? && info[e.next].Free? && a !in l.owned && a + n < |info|
      && Described(Relink(info, a, a + n, l.sz[k] - n)[a := Busy(n)], Shorter(Taken(l, a, n), k, n), -1, bound, brk)
    ensures LiveSame(info, Relink(info, l.ring[k], l.ring[k] + n, l.sz[k] - n)[l.ring[k] := Busy(n)], l.live)
  {
    hide Tiling, Linked, Shorter, Ordered, Relink, Distinct, Taken, Described, LiveEntry, OffRing, SameOff;
    DescribedIs(info, l, -1, bound, brk);
    TakeSome(l, k, n, bound, brk);
    var p, q := NeighboursOf(info, l.ring, k);
    var a, m := l.ring[k], l.sz[k] - n;
    TailUnowned(l, k, n, bound, brk);
    Relinked(info, l.ring, k, a + n, m);
    var info1 := Relink(info, a, a + n, m);
    LiveKept(info, info1, l, -1, bound, brk, a + n);
    TakenIs(l, a, n);
    ShorterIs(Taken(l, a, n), k, n);
    ReplacedOff(l.ring, k, a + n);
    MarkTaken(info1, Shorter(Taken(l, a, n), k, n), a, bound, brk);
  }

  lemma {:induction false} TailUnowned(l: Layout, k: nat, n: nat, bound: nat, brk: nat)
    requires Tiling(l, -1, bound, brk) && 0 < k < |l.ring| && 0 < n < l.sz[k]
    ensures l.ring[k] + n !in l.owned
  {
    hide Covered, Ordered, Coalesced, RegionsApart;
  }

  lemma {:induction false} ShorterIs(l: Layout, k: nat, n: nat)
    requires k < |l.ring| == |l.sz| && n <= l.sz[k]
    ensures Shorter(l, k, n) == Layout(l.ring[k := l.ring[k] + n], l.sz[k := l.sz[k] - n], l.owned, l.live)
  {
  }

  lemma {:induction false} ReplacedOff(ring: seq<nat>, k: nat, b: nat)
    requires Distinct(ring) && k < |ring| && b != ring[k]
    ensures OffRing(ring[k := b], ring[k])
  {
  }

  // ----------------------------------------------------------------- the heap

  lemma {:induction false} RingNext(info: Table, ring: seq<nat>, k: nat)
    requires Linked(info, ring) && k < |ring|
    ensures info[ring[k]].next == (if k + 1 < |ring| then ring[k + 1] else ring[0])
    ensures info[ring[k]].prev == (if k > 0 then ring[k - 1] else ring[|ring| - 1])
  {
    assert Joined(info, ring, k);
  }

  lemma {:induction false} IndexOn(ring: seq<nat>, b: nat) returns (k: nat)
    requires b in ring
    ensures k < |ring| && ring[k] == b
  {
    k :| 0 <= k < |ring| && ring[k] == b;
  }

  /** A live region starts strictly between two entries of the ring. */
  lemma {:induction false} BetweenEntries(l: Layout, slack: int, bound: nat, brk: nat, k: nat, a: nat)
    requires Tiling(l, slack, bound, brk) && a in l.owned && k < |l.ring|
    requires l.ring[k] <= a && (k + 1 < |l.ring| ==> a <= l.ring[k + 1])
    ensures Follows(l, k, a)
  {
    hide Covered, Coalesced, Ordered, RegionsApart;
    LiveOffRing(l, slack, bound, brk, a);
  }

  /** The allocator's globals. mem holds the contents of every block; brk
      is the first block the system has not handed out. */
  class Clusters {
    const capacity: nat
    var info: Table
    var infoAt: nat
    var heapindex: nat
    var heaplimit: nat
    var brk: nat
    var mem: seq<Page>
    ghost var lay: Layout

    /** What holds between and during calls: the table describes a tiling whose
        free and live clusters end by bound, and the table's own blocks are
        among the regions the allocator keeps. */
    ghost predicate Inv(bound: nat)
      reads this
    {
      && Described(info, lay, -1, bound, brk) && heaplimit <= bound
      && heapindex in lay.ring
      && infoAt in lay.owned && infoAt !in lay.live && lay.owned[infoAt] == TableBlocks(|info|)
      && 1 <= brk <= capacity && |mem| == capacity && |info| > 0
    }

    ghost predicate Valid()
      reads this
    {
      Inv(heaplimit)
    }

    /** malloc_initialize: an empty heap whose table is its first three blocks. */
    constructor (capacity: nat)
      requires capacity >= 4
      ensures Valid() && this.capacity == capacity && lay.live == {} && heaplimit == 0 && brk == 4
    {
      this.capacity := capacity;
      info := seq(INITIAL_ENTRIES, _ => Free(0, 0, 0));
      infoAt, heapindex, heaplimit, brk := 1, 0, 0, 1 + TableBlocks(INITIAL_ENTRIES);
      mem := seq(capacity, _ => BlankPage());
      lay := Layout([0], [0], map[1 := 3], {});
      new;
      assert Joined(info, lay.ring, 0);
      assert Sizes(info, lay.ring) == [0];
      forall x | 1 <= x < brk ensures OwnedBlock(lay.owned, x) {
        OwnedAt(lay.owned, 1, x);
      }
    }

    lemma {:induction false} InvIs(bound: nat)
      requires Inv(bound)
      ensures Described(info, lay, -1, bound, brk) && heaplimit <= bound && heapindex in lay.ring
      ensures infoAt in lay.owned && infoAt !in lay.live && lay.owned[infoAt] == TableBlocks(|info|)
      ensures 1 <= brk <= capacity && |mem| == capacity && |info| > 0
    {
    }

    lemma {:induction false} NowInv(bound: nat)
      requires Described(info, lay, -1, bound, brk) && heaplimit <= bound && heapindex in lay.ring
      requires infoAt in lay.owned && infoAt !in lay.live && lay.owned[infoAt] == TableBlocks(|info|)
      requires 1 <= brk <= capacity && |mem| == capacity && |info| > 0
      ensures Inv(bound)
    {
    }

    /** Walk down the list to the last entry below block. */
    method SearchDown(block: nat, ghost k0: nat) returns (i: nat, ghost k: nat)
      requires Linked(info, lay.ring) && OnTable(info, lay.ring) && k0 < |lay.ring| && lay.ring[k0] == heapindex > block
      ensures k + 1 < |lay.ring| && i == lay.ring[k] <= block < lay.ring[k + 1]
    {
      hide *;
      RingZero(info, lay.ring);
      i, k := heapindex, k0;
      while i > block
        invariant k < |lay.ring| && i == lay.ring[k] && (i > block || (k + 1 < |lay.ring| && lay.ring[k + 1] > block))
        decreases k
      {
        RingNext(info, lay.ring, k);
        i := info[i].prev;
        k := k - 1;
      }
    }

    /** Walk up the list past block, and step back. */
    method SearchUp(block: nat, ghost k0: nat) returns (i: nat, ghost k: nat)
      requires Linked(info, lay.ring) && OnTable(info, lay.ring) && k0 < |lay.ring| && lay.ring[k0] == heapindex < block
      ensures k < |lay.ring| && i == lay.ring[k] < block && (k + 1 < |lay.ring| ==> lay.ring[k + 1] >= block)
    {
      hide *;
      RingZero(info, lay.ring);
      k := k0;
      RingNext(info, lay.ring, k);
      i := info[heapindex].next;
      while i > 0 && i < block
        invariant k < |lay.ring| && lay.ring[k] < block
        invariant i == if k + 1 < |lay.ring| then lay.ring[k + 1] else lay.ring[0]
        decreases |lay.ring| - k
      {
        k := k + 1;
        RingNext(info, lay.ring, k);
        i := info[i].next;
      }
      RingNext(info, lay.ring, if k + 1 < |lay.ring| then k + 1 else 0);
      RingPositive(info, lay.ring, k);
      i := info[i].prev;
    }

    /** "Find the free cluster previous to this one in the free list", starting
        from the last one visited. */
    method FindPrevious(block: nat, ghost bound: nat) returns (i: nat, ghost k: nat)
      requires Described(info, lay, -1, bound, brk) && heapindex in lay.ring && block in lay.owned
      ensures |lay.ring| == |lay.sz| && Follows(lay, k, block) && i == lay.ring[k]
    {
      hide *;
      DescribedIs(info, lay, -1, bound, brk);
      LiveOffRing(lay, -1, bound, brk, block);
      k := IndexOn(lay.ring, heapindex);
      OffRingAt(lay.ring, block, k);
      if heapindex > block {
        i, k := SearchDown(block, k);
      } else {
        i, k := SearchUp(block, k);
      }
      BetweenEntries(lay, -1, bound, brk, k, block);
    }

    /** "Determine how to link this block into the free list". */
    method LinkBlock(block: nat, ghost bound: nat) returns (b: nat, ghost k: nat)
      requires Described(info, lay, -1, bound, brk) && heapindex in lay.ring
      requires block in lay.live && block in lay.owned && block < |info| && info[block] == Busy(lay.owned[block])
      modifies `info, `lay
      ensures Described(info, lay, k, bound, brk) && |info| == |old(info)|
      ensures lay.owned == old(lay.owned) - {block} && lay.live == old(lay.live) - {block}
      ensures LiveSame(old(info), info, lay.live)
      ensures 0 < k < |lay.ring| == |lay.sz| && b == lay.ring[k] && b <= block
      ensures block + old(lay.owned)[block] <= b + lay.sz[k]
    {
      hide *;
      var i;
      i, k := FindPrevious(block, bound);
      FollowsIs(lay, k, block);
      DescribedIs(info, lay, -1, bound, brk);
      ghost var l := lay;
      var blocks := info[block].blocks;
      if block == i + info[i].size {
        OntoDescribed(info, l, k, block, bound, brk);
        LongerIs(l, k, block);
        info := SetSize(info, i, info[i].size + blocks);
        lay := Longer(l, k, block);
        b := i;
      } else {
        NewDescribed(info, l, k, block, bound, brk);
        WithNewIs(l, k, block);
        info := LinkIn(info, i, block, blocks);
        lay := WithNew(l, k, block);
        b, k := block, k + 1;
      }
    }

    /** "see if we can coalesce it with its successor" */
    method JoinNext(b: nat, ghost k: nat, ghost bound: nat)
      requires Described(info, lay, k, bound, brk) && 0 < k < |lay.ring| == |lay.sz| && b == lay.ring[k]
      modifies `info, `lay
      ensures Described(info, lay, -1, bound, brk) && |info| == |old(info)|
      ensures lay.owned == old(lay.owned) && lay.live == old(lay.live) && LiveSame(old(info), info, lay.live)
      ensures 0 < k < |lay.ring| == |lay.sz| && b == lay.ring[k] && lay.sz[k] >= old(lay.sz)[k]
    {
      hide *;
      DescribedIs(info, lay, k, bound, brk);
      RingNext(info, lay.ring, k);
      ghost var l := lay;
      if b + info[b].size == info[b].next {
        SwallowDescribed(info, l, k, bound, brk);
        JoinedIs(l, k);
        info := SwallowNext(info, b);
        lay := Absorbed(l, k);
      } else {
        NoSlackDescribed(info, lay, k, bound, brk);
        LiveSameRefl(info, lay, k, bound, brk);
      }
    }

    /** "see if we can return stuff to the system" */
    method GiveBack(b: nat, ghost k: nat, ghost bound: nat) returns (b': nat, gave: bool)
      requires Described(info, lay, -1, bound, brk) && 0 < k < |lay.ring| == |lay.sz| && b == lay.ring[k]
      requires heaplimit <= bound && (heaplimit == bound || brk != heaplimit) && brk <= capacity
      modifies `info, `lay, `heaplimit, `brk
      ensures lay.owned == old(lay.owned) && lay.live == old(lay.live) && |info| == |old(info)|
      ensures !gave ==> info == old(info) && lay == old(lay) && heaplimit == old(heaplimit) && brk == old(brk) && b' == b
      ensures gave ==> Described(info, lay, -1, heaplimit, brk) && 1 <= heaplimit == brk <= capacity
      ensures gave ==> old(heaplimit) == old(brk) == bound && brk < old(brk) && heaplimit == b
      ensures gave <==> old(lay.sz)[k] >= FINAL_FREE_BLOCKS && b + old(lay.sz)[k] == old(heaplimit) == old(brk)
      ensures LiveSame(old(info), info, lay.live)
      ensures b' in lay.ring
    {
      hide *;
      DescribedIs(info, lay, -1, bound, brk);
      LiveSameRefl(info, lay, -1, bound, brk);
      ghost var l := lay;
      var blocks := info[b].size;
      gave := blocks >= FINAL_FREE_BLOCKS && b + blocks == heaplimit && brk == b + blocks;
      b' := b;
      if gave {
        DropDescribed(info, l, k, bound, brk);
        WithoutIs(l, k);
        heaplimit := heaplimit - blocks;
        brk := brk - blocks;
        b' := info[b].prev;
        info := Unlink(info, info[b].prev, info[b].next);
        lay := Without(l, k);
        assert lay.ring[k - 1] == b';
      }
    }

    /** free of a cluster. The owned regions lose exactly this one; everything
        else follows, for they determine the free list. All clear blocks at the
        end go back to the system exactly if the cluster's are among them and
        they are many enough. */
    method FreeCluster(block: nat, ghost bound: nat) returns (ghost gave: bool)
      requires Inv(bound) && (heaplimit == bound || brk != heaplimit)
      requires block in lay.live && block in lay.owned && block < |info| && info[block] == Busy(lay.owned[block])
      modifies `info, `lay, `heaplimit, `brk, `heapindex
      ensures lay.owned == old(lay.owned) - {block} && lay.live == old(lay.live) - {block}
      ensures |info| == |old(info)|
      ensures !gave ==> Inv(bound) && heaplimit == old(heaplimit) && brk == old(brk)
      ensures gave ==> Valid() && 1 <= heaplimit == brk < old(brk) && old(heaplimit) == old(brk) && heaplimit <= block
      ensures LiveSame(old(info), info, lay.live)
      ensures !gave ==> 0 < heapindex < |info| && info[heapindex].Free? && heapindex <= block
      ensures !gave ==> block + old(lay.owned)[block] <= heapindex + info[heapindex].size
      ensures gave <==> Releases(old(lay.owned) - {block}, old(heaplimit), old(brk), block)
      ensures brk == BreakAfter(old(lay.owned) - {block}, old(heaplimit), old(brk), block)
    {
      hide *;
      InvIs(bound);
      var b;
      ghost var k;
      ghost var info0 := info;
      DescribedIs(info, lay, -1, bound, brk);
      b, k := LinkBlock(block, bound);
      ghost var info1 := info;
      JoinNext(b, k, bound);
      ghost var info2 := info;
      DescribedIs(info, lay, -1, bound, brk);
      ReleasesIs(lay, bound, heaplimit, brk, k, block);
      heapindex, gave := GiveBack(b, k, bound);
      NowInv(if gave then heaplimit else bound);
      if gave { ValidIs(); }
      LiveSameThrice(info0, info1, info2, info, lay.live);
    }

    lemma {:induction false} ValidIs()
      ensures Valid() <==> Inv(heaplimit)
    {
    }

    /** morecore: n more blocks from the system, and a larger table first if they
        would not fit the present one. The new blocks are left as a region of
        their own; a table that moved leaves its old blocks free. It fails
        exactly when the system does not have all of that, and changes nothing
        then. */
    method Morecore(n: nat) returns (result: nat)
      requires Valid() && n > 0
      modifies `info, `lay, `heaplimit, `brk, `heapindex, `infoAt, `mem
      ensures result == 0 ==> Valid() && info == old(info) && lay == old(lay) && heaplimit == old(heaplimit)
      ensures result == 0 ==> brk == old(brk) && heapindex == old(heapindex) && infoAt == old(infoAt) && mem == old(mem)
      ensures result > 0 ==> result == old(brk) && heaplimit == result + n && Inv(heaplimit)
      ensures result > 0 ==> result in lay.owned && lay.owned[result] == n && lay.live == old(lay.live)
      ensures result > 0 ==> result !in lay.live && |old(info)| <= |info|
      ensures LiveSame(old(info), info, lay.live)
      ensures result > 0 ==> Grown(old(lay), lay, old(infoAt), infoAt, result, n)
      ensures |mem| == |old(mem)| == capacity >= old(brk) && mem[..old(brk)] == old(mem)[..old(brk)]
      ensures |old(info)| > 0 && (result == 0 <==> old(brk) + Core(old(brk), n, |old(info)|) > capacity)
      ensures result > 0 ==> brk == old(brk) + Core(old(brk), n, |old(info)|)
    {
      hide *;
      ValidIs();
      InvIs(heaplimit);
      DescribedIs(info, lay, -1, heaplimit, brk);
      LiveSameRefl(info, lay, -1, heaplimit, brk);
      CoreIs(brk, n, |info|);
      if brk + n > capacity { return 0; }
      var before := brk;
      ghost var l := lay;
      if before + n > |info| {
        var newsize := DoubleUntil(|info|, before + n);
        TablePositive(newsize);
        if brk + n + TableBlocks(newsize) > capacity { return 0; }
        result := before;
        GrowTwice(info, l, n, TableBlocks(newsize), heaplimit, brk);
        lay := l.(owned := l.owned[before := n][before + n := TableBlocks(newsize)]);
        brk := before + n + TableBlocks(newsize);
        mem := ClearTable(before + n, TableBlocks(newsize));
        LiveOffRing(l, -1, heaplimit, before, infoAt);
        ghost var at := infoAt;
        MoveTable(newsize, before, n);
        GrownMoved(l, lay, at, before, n, TableBlocks(newsize));
      } else {
        result := before;
        GrowOnce(info, l, n, heaplimit, brk);
        lay := l.(owned := l.owned[before := n]);
        brk := before + n;
        GrownOnce(l, infoAt, before, n);
        RaiseBound(info, lay, heaplimit, before + n, brk);
        heaplimit := before + n;
        NowInv(heaplimit);
      }
    }

    /** memset of the new table: the blocks at at change, none below do. */
    method ClearTable(at: nat, t: nat) returns (m: seq<Page>)
      requires at + t <= |mem|
      ensures |m| == |mem| && m[..at] == mem[..at]
    {
      m := mem[..at] + seq(t, _ => BlankPage()) + mem[at + t..];
    }

    method DoubleUntil(from: nat, limit: nat) returns (newsize: nat)
      requires 0 < from < limit
      ensures newsize == Doubled(from, limit) >= limit
    {
      newsize := from;
      while limit > newsize
        invariant newsize > 0 && Doubled(newsize, limit) == Doubled(from, limit)
        decreases limit - newsize
      {
        newsize := newsize * 2;
      }
    }

    /** Copy the table to its new place and free the old one. */
    method MoveTable(newsize: nat, result: nat, n: nat)
      requires newsize >= result + n > |info| && result > 0 && n > 0
      requires Described(info, lay, -1, heaplimit, brk) && heapindex in lay.ring && |info| > 0
      requires infoAt in lay.owned && infoAt !in lay.live && lay.owned[infoAt] == TableBlocks(|info|)
      requires infoAt + TableBlocks(|info|) <= result && heaplimit <= result
      requires result in lay.owned && lay.owned[result] == n && result !in lay.live
      requires result + n in lay.owned && lay.owned[result + n] == TableBlocks(newsize) && result + n !in lay.live
      requires brk == result + n + TableBlocks(newsize) <= capacity && |mem| == capacity && TableBlocks(newsize) > 0
      modifies `info, `lay, `heaplimit, `brk, `heapindex, `infoAt
      ensures heaplimit == result + n && Inv(heaplimit) && brk == old(brk)
      ensures infoAt == result + n && |info| == newsize && lay.live == old(lay.live)
      ensures lay.owned == old(lay.owned) - {old(infoAt)} && LiveSame(old(info), info, lay.live)
    {
      hide *;
      ghost var info0 := info;
      var oldAt, oldsize := infoAt, |info|;
      ghost var live := lay.live;
      TableCopied(info, lay, heaplimit, brk, newsize, oldAt, result);
      info := (info + seq(newsize - |info|, _ => Free(0, 0, 0)))[oldAt := Busy(TableBlocks(oldsize))];
      lay := lay.(live := lay.live + {oldAt});
      ghost var info1 := info;
      infoAt := result + n;
      NowInv(result);
      ghost var gave := FreeCluster(oldAt, result);
      InvIs(result);
      RaiseBound(info, lay, result, result + n, brk);
      heaplimit := result + n;
      NowInv(heaplimit);
      LiveBack(live, oldAt);
      LiveSameTwice(info0, info1, info, live);
    }

    /** "Search the free list in a circle starting at the last place visited". */
    method FindFit(blocks: nat) returns (block: nat, found: bool, ghost k: nat)
      requires Valid() && blocks > 0
      ensures |lay.ring| == |lay.sz|
      ensures found ==> 0 < k < |lay.ring| && block == lay.ring[k] && lay.sz[k] >= blocks
      ensures found ==> NextFit(lay.owned, heaplimit, heapindex, blocks, block)
      ensures !found ==> forall j :: 0 <= j < |lay.sz| ==> lay.sz[j] < blocks
      ensures heapindex < |info| && info[heapindex].Free?
      ensures info[heapindex].size >= blocks ==> found && block == heapindex
    {
      hide *;
      ValidIs();
      InvIs(heaplimit);
      DescribedIs(info, lay, -1, heaplimit, brk);
      ghost var s := IndexOn(lay.ring, heapindex);
      block, k := heapindex, s;
      ghost var wrapped := false;
      while info[block].size < blocks
        invariant k < |lay.ring| && block == lay.ring[k]
        invariant if wrapped then k < s && (forall j :: 0 <= j < k || s <= j < |lay.sz| ==> lay.sz[j] < blocks)
                  else s <= k && forall j :: s <= j < k ==> lay.sz[j] < blocks
        invariant info[heapindex].size >= blocks ==> block == heapindex
        decreases !wrapped, |lay.ring| - k
      {
        RingNext(info, lay.ring, k);
        block := info[block].next;
        if k + 1 < |lay.ring| { k := k + 1; } else { k, wrapped := 0, true; }
        if block == heapindex {
          return block, false, 0;
        }
        NotSame(lay.ring, k, s);
      }
      found := true;
      PositiveSize(lay.sz, k, blocks);
      FirstFit(lay, heaplimit, brk, s, k, blocks);
    }

    lemma {:induction false} NotSame(ring: seq<nat>, k: nat, s: nat)
      requires k < |ring| && s < |ring| && ring[k] != ring[s]
      ensures k != s
    {
    }

    lemma {:induction false} PositiveSize(sz: seq<nat>, k: nat, blocks: nat)
      requires k < |sz| && sz[0] == 0 && sz[k] >= blocks > 0
      ensures k > 0
    {
    }

    /** Take blocks from free cluster number k. */
    method Carve(block: nat, blocks: nat, ghost k: nat)
      requires Valid() && |lay.ring| == |lay.sz| && 0 < k < |lay.ring| && block == lay.ring[k] && 0 < blocks <= lay.sz[k]
      modifies `info, `lay, `heapindex
      ensures Valid() && |info| == |old(info)| && block !in old(lay.owned)
      ensures lay.owned == old(lay.owned)[block := blocks] && lay.live == old(lay.live) + {block}
      ensures block < |info| && info[block] == Busy(blocks) && LiveSame(old(info), info, old(lay.live))
      ensures blocks < old(lay.sz)[k] ==> heapindex == block + blocks
      ensures blocks < old(lay.sz)[k] ==>
        heapindex < |info| && info[heapindex].Free? && info[heapindex].size == old(lay.sz)[k] - blocks
    {
      hide *;
      ValidIs();
      InvIs(heaplimit);
      ghost var l := lay;
      DescribedIs(info, l, -1, heaplimit, brk);
      if info[block].size > blocks {
        TakeSomeDescribed(info, l, k, blocks, heaplimit, brk);
        TakenIs(l, block, blocks);
        ShorterIs(Taken(l, block, blocks), k, blocks);
        heapindex := block + blocks;
        info := Relink(info, block, block + blocks, info[block].size - blocks)[block := Busy(blocks)];
        lay := Shorter(Taken(l, block, blocks), k, blocks);
        assert lay.ring[k] == heapindex;
        DescribedIs(info, lay, -1, heaplimit, brk);
      } else {
        TakeAllDescribed(info, l, k, heaplimit, brk);
        TakenIs(l, block, blocks);
        WithoutIs(Taken(l, block, blocks), k);
        NextStays(info, l, k, heaplimit, brk);
        heapindex := info[block].next;
        info := Unlink(info, info[block].prev, info[block].next)[block := Busy(blocks)];
        lay := Without(Taken(l, block, blocks), k);
      }
      NowInv(heaplimit);
      ValidIs();
    }

    /** "The new core will be contiguous with the final free block": it is made
        longer by more blocks. */
    method Lengthen(more: nat) returns (block: nat, ok: bool, ghost k: nat)
      requires Valid() && more > 0 && |lay.ring| == |lay.sz| > 0 && lay.sz[|lay.sz| - 1] > 0
      requires lay.ring[|lay.ring| - 1] + lay.sz[|lay.sz| - 1] == heaplimit == brk
      modifies `info, `lay, `heaplimit, `brk, `heapindex, `infoAt, `mem
      ensures Valid() && |lay.ring| == |lay.sz|
      ensures !ok ==> info == old(info) && lay == old(lay) && heaplimit == old(heaplimit)
      ensures !ok ==> brk == old(brk) && heapindex == old(heapindex) && infoAt == old(infoAt) && mem == old(mem)
      ensures ok ==> 0 < k < |lay.ring| && block == lay.ring[k] && old(lay.sz[|lay.sz| - 1]) + more <= lay.sz[k]
      ensures |old(info)| > 0 && (ok <==> old(brk) + Core(old(brk), more, |old(info)|) <= capacity)
      ensures ok ==> brk == old(brk) + Core(old(brk), more, |old(info)|)
      ensures lay.live == old(lay.live) && LiveSame(old(info), info, lay.live)
      ensures forall a :: a in lay.live ==> a in old(lay.owned) && a in lay.owned && lay.owned[a] == old(lay.owned)[a]
      ensures |mem| == |old(mem)| == capacity >= old(brk) && mem[..old(brk)] == old(mem)[..old(brk)]
    {
      hide *;
      ValidIs();
      InvIs(heaplimit);
      ghost var l, at, live, info0 := lay, infoAt, lay.live, info;
      DescribedIs(info, l, -1, heaplimit, brk);
      LiveSameRefl(info, l, -1, heaplimit, brk);
      ghost var last, top, limit := |lay.ring| - 1, brk, heaplimit;
      block, k := 0, 0;
      var result := Morecore(more);
      ok := result != 0;
      if ok {
        InvIs(heaplimit);
        ghost var info1 := info;
        DescribedIs(info, lay, -1, heaplimit, brk);
        LastReaches(l, limit, top, lay, heaplimit, brk, at, infoAt, result, more, last);
        RingNext(info, lay.ring, 0);
        block := info[0].prev;
        k := |lay.ring| - 1;
        ExtendDescribed(info, lay, result, heaplimit, brk);
        LongerIs(lay, k, result);
        KeptRegions(l, lay, at, infoAt, result, more, limit, top);
        info := SetSize(info, block, info[block].size + more);
        lay := Longer(lay, k, result);
        NowInv(heaplimit);
        LiveSameTwice(info0, info1, info, live);
        DescribedIs(info, lay, -1, heaplimit, brk);
        ValidIs();
      }
    }

    /** The new core may continue the last free cluster: then only the rest is
        needed. */
    method TryExtend(blocks: nat) returns (block: nat, ok: bool, ghost k: nat)
      requires Valid() && blocks > 0 && |lay.ring| == |lay.sz| && forall j :: 0 <= j < |lay.sz| ==> lay.sz[j] < blocks
      modifies `info, `lay, `heaplimit, `brk, `heapindex, `infoAt, `mem
      ensures Valid() && |lay.ring| == |lay.sz|
      ensures !ok ==> info == old(info) && lay == old(lay) && heaplimit == old(heaplimit)
      ensures !ok ==> brk == old(brk) && heapindex == old(heapindex) && infoAt == old(infoAt) && mem == old(mem)
      ensures ok ==> 0 < k < |lay.ring| && block == lay.ring[k] && blocks <= lay.sz[k]
      ensures var spare := Spare(old(lay.owned), old(heaplimit), old(brk));
        && |old(info)| > 0 && spare < blocks
        && (ok <==> spare > 0 && old(brk) + Core(old(brk), blocks - spare, |old(info)|) <= capacity)
        && (ok ==> brk == old(brk) + Core(old(brk), blocks - spare, |old(info)|))
      ensures lay.live == old(lay.live) && LiveSame(old(info), info, lay.live)
      ensures forall a :: a in lay.live ==> a in old(lay.owned) && a in lay.owned && lay.owned[a] == old(lay.owned)[a]
      ensures |mem| == |old(mem)| == capacity >= old(brk) && mem[..old(brk)] == old(mem)[..old(brk)]
    {
      hide *;
      ValidIs();
      InvIs(heaplimit);
      DescribedIs(info, lay, -1, heaplimit, brk);
      LiveSameRefl(info, lay, -1, heaplimit, brk);
      RingNext(info, lay.ring, 0);
      SpareIs(lay, heaplimit, brk);
      block := info[0].prev;
      var lastblocks := info[block].size;
      ok, k := false, 0;
      if heaplimit != 0 && block + lastblocks == heaplimit && brk == block + lastblocks {
        block, ok, k := Lengthen(blocks - lastblocks);
      }
    }

    /** New core that continues nothing is a cluster by itself. */
    method TakeCore(blocks: nat) returns (r: nat)
      requires Valid() && blocks > 0
      modifies `info, `lay, `heaplimit, `brk, `heapindex, `infoAt, `mem
      ensures Valid()
      ensures |old(info)| > 0 && (r == 0 <==> old(brk) + Core(old(brk), blocks, |old(info)|) > capacity)
      ensures r == 0 ==> info == old(info) && lay == old(lay) && heaplimit == old(heaplimit)
      ensures r == 0 ==> brk == old(brk) && heapindex == old(heapindex) && infoAt == old(infoAt) && mem == old(mem)
      ensures r > 0 ==> brk == old(brk) + Core(old(brk), blocks, |old(info)|)
      ensures r > 0 ==> r !in old(lay.live) && lay.live == old(lay.live) + {r}
      ensures r > 0 ==> r in lay.owned && lay.owned[r] == blocks && r < |info| && info[r] == Busy(blocks)
      ensures LiveSame(old(info), info, old(lay.live))
      ensures forall a :: a in old(lay.live) ==> a in old(lay.owned) && a in lay.owned && lay.owned[a] == old(lay.owned)[a]
      ensures |mem| == |old(mem)| == capacity >= old(brk) && mem[..old(brk)] == old(mem)[..old(brk)]
    {
      hide *;
      ValidIs();
      InvIs(heaplimit);
      ghost var l, live, info0 := lay, lay.live, info;
      DescribedIs(info, l, -1, heaplimit, brk);
      LiveSameRefl(info, l, -1, heaplimit, brk);
      ghost var at, limit, top := infoAt, heaplimit, brk;
      r := Morecore(blocks);
      if r > 0 {
        ghost var info1 := info;
        InvIs(heaplimit);
        DescribedIs(info, lay, -1, heaplimit, brk);
        FreshDescribed(info, lay, r, heaplimit, brk);
        KeptRegions(l, lay, at, infoAt, r, blocks, limit, top);
        info := info[r := Busy(blocks)];
        lay := lay.(live := lay.live + {r});
        LiveSameTwice(info0, info1, info, live);
        NowInv(heaplimit);
        ValidIs();
      }
    }

    /** Neither the free clusters nor the system have so many blocks. */
    ghost predicate Exhausted(blocks: nat)
      reads this
    {
      NoRoom(lay.owned, heaplimit, brk, |info|, capacity, blocks)
    }

    lemma {:induction false} ExhaustedMeans(blocks: nat)
      ensures Exhausted(blocks) <==> NoRoom(lay.owned, heaplimit, brk, |info|, capacity, blocks)
    {
    }

    lemma {:induction false} ExhaustedIs(blocks: nat)
      requires Valid() && blocks > 0
      ensures |info| > 0 && |lay.ring| == |lay.sz|
      ensures Fits(lay.owned, heaplimit, blocks) <==> exists k :: 0 <= k < |lay.sz| && lay.sz[k] >= blocks
      ensures var spare := Spare(lay.owned, heaplimit, brk);
        !Fits(lay.owned, heaplimit, blocks) && spare < blocks ==>
          (Exhausted(blocks) <==> brk + Core(brk, blocks - spare, |info|) > capacity)
          && Core(brk, blocks - spare, |info|) <= Core(brk, blocks, |info|)
      ensures Fits(lay.owned, heaplimit, blocks) ==> !Exhausted(blocks)
    {
      hide Tiling, Matches, Fits, Spare, Core;
      FitsIff(lay, heaplimit, brk, blocks);
      var spare := Spare(lay.owned, heaplimit, brk);
      if spare < blocks { CoreMono(brk, blocks - spare, blocks, |info|); }
    }

    /** malloc of whole blocks. It fails exactly when no free cluster is large
        enough and the system does not have what is missing; failure changes
        nothing. Success adds exactly one live cluster, the next large enough
        after the place visited last if there is any, and leaves the others,
        their entries and their contents alone. The system is asked for what is
        missing and no more, and for nothing if a cluster is large enough. */
    method MallocBlocks(blocks: nat) returns (r: nat)
      requires Valid() && blocks > 0
      modifies `info, `lay, `heaplimit, `brk, `heapindex, `infoAt, `mem
      ensures Valid()
      ensures r == 0 <==> old(Exhausted(blocks))
      ensures r == 0 ==> info == old(info) && lay == old(lay) && heaplimit == old(heaplimit)
      ensures r == 0 ==> brk == old(brk) && heapindex == old(heapindex) && infoAt == old(infoAt) && mem == old(mem)
      ensures Fits(old(lay.owned), old(heaplimit), blocks) ==>
        && NextFit(old(lay.owned), old(heaplimit), old(heapindex), blocks, r) && lay.owned == old(lay.owned)[r := blocks]
        && brk == old(brk) && heaplimit == old(heaplimit) && infoAt == old(infoAt) && mem == old(mem) && |info| == |old(info)|
      ensures r > 0 && !Fits(old(lay.owned), old(heaplimit), blocks) ==>
        && |old(info)| > 0 && Spare(old(lay.owned), old(heaplimit), old(brk)) < blocks
        && brk == old(brk) + Core(old(brk), blocks - Spare(old(lay.owned), old(heaplimit), old(brk)), |old(info)|)
      ensures r > 0 ==> r !in old(lay.live) && lay.live == old(lay.live) + {r}
      ensures r > 0 ==> r in lay.owned && lay.owned[r] == blocks && r < |info| && info[r] == Busy(blocks)
      ensures LiveSame(old(info), info, old(lay.live))
      ensures forall a :: a in old(lay.live) ==> a in old(lay.owned) && a in lay.owned && lay.owned[a] == old(lay.owned)[a]
      ensures |mem| == |old(mem)| == capacity >= old(brk) && mem[..old(brk)] == old(mem)[..old(brk)]
      ensures old(heapindex) < |old(info)| && old(info)[old(heapindex)].Free?
      ensures old(info)[old(heapindex)].size > blocks ==>
        && heapindex == r + blocks < |info| && info[heapindex].Free?
        && info[heapindex].size == old(info)[old(heapindex)].size - blocks
    {
      hide *;
      ValidIs();
      InvIs(heaplimit);
      ghost var l, live, info0 := lay, lay.live, info;
      DescribedIs(info, l, -1, heaplimit, brk);
      LiveSameRefl(info, l, -1, heaplimit, brk);
      ExhaustedIs(blocks);
      var block, ok;
      ghost var k;
      block, ok, k := FindFit(blocks);
      if !ok {
        block, ok, k := TryExtend(blocks);
      }
      if ok {
        ghost var info1, l1 := info, lay;
        ValidIs();
        InvIs(heaplimit);
        DescribedIs(info, lay, -1, heaplimit, brk);
        Carve(block, blocks, k);
        LiveSameTwice(info0, info1, info, live);
        r := block;
        BlockPositive(info1, l1, k, heaplimit, brk);
      } else {
        r := TakeCore(blocks);
      }
    }

    /** A cluster large enough at the place visited last is the one taken. */
    lemma {:induction false} HereFits(blocks: nat)
      requires Valid() && 0 < heapindex < |info| && info[heapindex].Free? && 0 < blocks <= info[heapindex].size
      ensures Fits(lay.owned, heaplimit, blocks) && heapindex !in lay.owned
      ensures forall r: nat {:trigger NextFit(lay.owned, heaplimit, heapindex, blocks, r)} ::
        NextFit(lay.owned, heaplimit, heapindex, blocks, r) ==> r == heapindex
    {
      hide Fits, Clear, Covered, Coalesced, Ordered, RegionsApart, RingApart;
      var k := IndexOn(lay.ring, heapindex);
      DescribedIs(info, lay, -1, heaplimit, brk);
      ClusterClear(lay, heaplimit, brk, k);
      ClearFirst(lay.owned, lay.ring[k], lay.sz[k], blocks);
      FitsIff(lay, heaplimit, brk, blocks);
      ClearOwned(lay.owned, heapindex, blocks);
    }

    /** "The new size is smaller; return excess memory to the free list." */
    method Shrink(block: nat, blocks: nat)
      requires Valid() && block in lay.live && block in lay.owned && 0 < blocks < lay.owned[block]
      requires block < |info| && info[block] == Busy(lay.owned[block])
      modifies `info, `lay, `heaplimit, `brk, `heapindex
      ensures Valid() && lay.live == old(lay.live) && lay.owned == old(lay.owned)[block := blocks]
      ensures LiveSame(old(info), info, lay.live - {block}) && block < |info| && info[block] == Busy(blocks)
    {
      hide *;
      ValidIs();
      InvIs(heaplimit);
      DescribedIs(info, lay, -1, heaplimit, brk);
      ghost var l, info0 := lay, info;
      var rest := info[block].blocks - blocks;
      SplitDescribed(info, l, block, blocks, heaplimit, brk);
      info := info[block + blocks := Busy(rest)][block := Busy(blocks)];
      lay := SplitAt(l, block, blocks);
      SplitIs(l, block, blocks);
      LiveBelow(info0, l, heaplimit, brk);
      ghost var info1 := info;
      NowInv(heaplimit);
      ghost var gave := FreeCluster(block + blocks, heaplimit);
      ValidIs();
      SplitBack(l, block, blocks, info0, info1, info, lay);
    }

    /** "Won't fit, so allocate a new region that will", freeing the old one
        first. It fails exactly when there is no room even with the old one's
        blocks; then everything is as it was, free list included. On success
        the old contents have moved to the new cluster. */
    method Grow(block: nat, blocks: nat) returns (r: nat)
      requires Valid() && block in lay.live && block in lay.owned && blocks > lay.owned[block]
      requires block < |info| && info[block] == Busy(lay.owned[block])
      modifies `info, `lay, `heaplimit, `brk, `heapindex, `infoAt, `mem
      ensures Valid()
      ensures r > 0 ==> r !in old(lay.live) - {block} && lay.live == old(lay.live) - {block} + {r}
      ensures r > 0 ==> r in lay.owned && lay.owned[r] == blocks && r < |info| && info[r] == Busy(blocks)
      ensures r > 0 ==> Moved(old(mem), mem, block, r, old(lay.owned)[block])
      ensures r > 0 ==> Undisturbed(old(lay), lay, old(mem), mem, old(lay.live) - {block})
      ensures r == 0 <==> old(NoRoom(lay.owned - {block}, heaplimit, brk, |info|, capacity, blocks))
      ensures r == 0 ==> lay == old(lay) && mem == old(mem) && brk == old(brk) && heaplimit == old(heaplimit)
      ensures r == 0 ==> LiveSame(old(info), info, lay.live) && infoAt == old(infoAt) && |info| == |old(info)|
      ensures LiveSame(old(info), info, old(lay.live) - {block})
    {
      hide *;
      ValidIs();
      InvIs(heaplimit);
      DescribedIs(info, lay, -1, heaplimit, brk);
      ghost var l, info0, mem0, brk0, at0 := lay, info, mem, brk, infoAt;
      var cur := info[block].blocks;
      var oldlimit := heaplimit;
      heaplimit := 0;
      NowInv(oldlimit);
      ghost var gave := FreeCluster(block, oldlimit);
      InvIs(oldlimit);
      heaplimit := oldlimit;
      NowInv(oldlimit);
      ValidIs();
      ghost var l1, info1 := lay, info;
      ExhaustedMeans(blocks);
      r := MallocBlocks(blocks);
      if r == 0 {
        Unfree(block, cur, l, info0);
        ValidIs();
        InvIs(heaplimit);
        DescribedIs(info, lay, -1, heaplimit, brk);
        FreeListDetermined(l, lay, oldlimit, heaplimit, brk);
        LiveSameSub(info0, info, l.live, block);
      } else {
        ValidIs();
        InvIs(heaplimit);
        DescribedIs(info, lay, -1, heaplimit, brk);
        LiveSameTwice(info0, info1, info, l.live - {block});
        ghost var mem1 := mem;
        mem := MoveBlocks(r, block, cur);
        MoveKeeps(l, lay, oldlimit, brk0, heaplimit, brk, mem0, mem1, mem, block, r, cur);
        NowInv(heaplimit);
        ValidIs();
      }
    }

    /** Change the use that a single live block is put to. */
    method SetUse(block: nat, e: Info)
      requires Valid() && block in lay.live && block in lay.owned && lay.owned[block] == 1 && (e == Busy(1) || e.Frag?)
      modifies `info
      ensures Valid() && block < |old(info)| && info == old(info)[block := e]
    {
      hide *;
      ValidIs();
      InvIs(heaplimit);
      DescribedIs(info, lay, -1, heaplimit, brk);
      UseDescribed(info, lay, heaplimit, brk, block, e);
      info := info[block := e];
      NowInv(heaplimit);
      ValidIs();
    }

    /** memcpy of n bytes between two blocks. */
    method CopyBytes(dst: nat, to: nat, src: nat, from: nat, n: nat)
      requires Valid() && dst < |mem| && src < |mem| && to + n <= 4096 && from + n <= 4096
      modifies `mem
      ensures Valid() && |mem| == |old(mem)| && mem[dst][to..to + n] == old(mem)[src][from..from + n]
      ensures mem[dst][..to] == old(mem)[dst][..to] && mem[dst][to + n..] == old(mem)[dst][to + n..]
      ensures forall b :: 0 <= b < |mem| && b != dst ==> mem[b] == old(mem)[b]
    {
      hide *;
      ValidIs();
      InvIs(heaplimit);
      mem := mem[dst := mem[dst][..to] + mem[src][from..from + n] + mem[dst][to + n..]];
      NowInv(heaplimit);
      ValidIs();
    }

    lemma {:induction false} LiveFacts()
      requires Valid()
      ensures LiveFit(info, lay, brk, mem) && |mem| == capacity
    {
      DescribedIs(info, lay, -1, heaplimit, brk);
      hide Linked, Covered, Coalesced, Ordered, RingApart;
      assert RegionsApart(lay);
    }

    /** memmove of n blocks from src to dst. */
    method MoveBlocks(dst: nat, src: nat, n: nat) returns (m: seq<Page>)
      requires dst + n <= |mem| && src + n <= |mem|
      ensures |m| == |mem| && m[dst..dst + n] == mem[src..src + n]
      ensures m[..dst] == mem[..dst] && m[dst + n..] == mem[dst + n..]
    {
      m := mem[..dst] + mem[src..src + n] + mem[dst + n..];
    }

    /** "We have to unfree the thing we just freed." Starting from the cluster it
        was merged into, allocate up to it and then it, and free the former. */
    method Unfree(block: nat, cur: nat, ghost l: Layout, ghost info0: Table)
      requires Valid() && cur > 0 && 0 < heapindex < |info| && info[heapindex].Free? && heapindex <= block
      requires block + cur <= heapindex + info[heapindex].size
      requires block in l.owned && l.owned[block] == cur && block in l.live
      requires lay.owned == l.owned - {block} && lay.live == l.live - {block}
      requires block < |info0| == |info| && info0[block] == Busy(cur) && LiveSame(info0, info, l.live - {block})
      modifies `info, `lay, `heaplimit, `brk, `heapindex, `infoAt, `mem
      ensures Valid() && lay.owned == l.owned && lay.live == l.live && LiveSame(info0, info, l.live)
      ensures mem == old(mem) && brk == old(brk) && heaplimit == old(heaplimit) && infoAt == old(infoAt) && |info| == |old(info)|
    {
      hide *;
      ghost var info1 := info;
      if heapindex == block {
        HereFits(cur);
        var r := MallocBlocks(cur);
        Restored(l, block, cur, info0, info1, info, lay);
      } else {
        var gap := block - heapindex;
        HereFits(gap);
        var previous := MallocBlocks(gap);
        ghost var info2, l2 := info, lay;
        HereFits(cur);
        var r := MallocBlocks(cur);
        ghost var info3, l3 := info, lay;
        RestoredAfter(l, block, cur, previous, gap, info0, info1, info2, info3, l2, l3);
        ValidIs();
        ghost var gave := FreeCluster(previous, heaplimit);
        RestoredLast(l, block, cur, previous, info0, info3, info, l3, lay);
        NotGiven(gave, block, previous);
        ValidIs();
      }
    }

    /** A cluster below a live one is never given back to the system. */
    lemma {:induction false} NotGiven(gave: bool, block: nat, previous: nat)
      requires gave ==> Valid() && heaplimit <= previous
      requires previous < block && block in lay.live
      ensures !gave
    {
      if gave {
        DescribedIs(info, lay, -1, heaplimit, brk);
        assert false;
      }
    }
  }

  // ------------------------------------------------------------------ resizing

  ghost function SplitAt(l: Layout, a: nat, n: nat): Layout
    requires a in l.owned && n <= l.owned[a]
  {
    l.(owned := l.owned[a := n][a + n := l.owned[a] - n], live := l.live + {a + n})
  }

  lemma {:induction false} SplitTiling(l: Layout, a: nat, n: nat, bound: nat, brk: nat)
    requires Tiling(l, -1, bound, brk) && a in l.live && a in l.owned && 0 < n < l.owned[a]
    ensures a + n !in l.owned && OffRing(l.ring, a + n) && OffRing(l.ring, a) && a + n < bound
    ensures Tiling(SplitAt(l, a, n), -1, bound, brk)
  {
    LiveOffRing(l, -1, bound, brk, a);
    SplitCovered(l, a, n, bound, brk);
    SplitRegions(l, a, n, bound, brk);
    SplitApart(l, a, n, bound, brk);
    hide Covered, Coalesced, Ordered, RegionsApart, RingApart, RegionsFit;
  }

  lemma {:induction false} SplitRegions(l: Layout, a: nat, n: nat, bound: nat, brk: nat)
    requires RegionsFit(l, bound, brk) && RegionsApart(l) && a in l.live && a in l.owned && 0 < n < l.owned[a]
    ensures a + n !in l.owned && a + n < bound
    ensures RegionsFit(SplitAt(l, a, n), bound, brk) && RegionsApart(SplitAt(l, a, n))
  {
    assert forall b :: b in l.owned && a < b ==> a + l.owned[a] <= b;
    var l' := SplitAt(l, a, n);
    forall b, c | b in l'.owned && c in l'.owned && b < c ensures b + l'.owned[b] <= c {
      if b != a + n && c != a + n {
        assert b + l.owned[b] <= c;
      } else if c == a + n && b != a {
        assert b + l.owned[b] <= a;
      }
    }
  }

  lemma {:induction false} SplitApart(l: Layout, a: nat, n: nat, bound: nat, brk: nat)
    requires Tiling(l, -1, bound, brk) && a in l.owned && 0 < n < l.owned[a]
    ensures RingApart(SplitAt(l, a, n)) && OffRing(l.ring, a + n)
  {
    hide Covered, Coalesced, Ordered, RegionsApart;
    forall k | 0 <= k < |l.ring| ensures l.ring[k] != a + n {
      assert a + l.owned[a] <= l.ring[k] || l.ring[k] + l.sz[k] <= a;
    }
  }

  lemma {:induction false} SplitCovered(l: Layout, a: nat, n: nat, bound: nat, brk: nat)
    requires Tiling(l, -1, bound, brk) && a in l.owned && 0 < n < l.owned[a]
    ensures Covered(SplitAt(l, a, n), brk)
  {
    assert a + n !in l.owned by { assert RegionsApart(l); }
    var l' := SplitAt(l, a, n);
    forall x: nat | 1 <= x < brk ensures FreeBlock(l'.ring, l'.sz, x) || OwnedBlock(l'.owned, x) {
      var free, i := Locate(l, brk, x);
      if free {
        FreeAt(l'.ring, l'.sz, i, x);
      } else {
        OwnedAt(l'.owned, if i == a && x >= a + n then a + n else i, x);
      }
    }
  }

  /** Cutting a live cluster in two, in the table. */
  lemma {:induction false} SplitDescribed(info: Table, l: Layout, a: nat, n: nat, bound: nat, brk: nat)
    requires Described(info, l, -1, bound, brk) && a in l.live && a in l.owned && 0 < n < l.owned[a]
    ensures a + n < |info| && a + n !in l.owned && a + n !in l.live
    ensures Described(info[a + n := Busy(l.owned[a] - n)][a := Busy(n)], SplitAt(l, a, n), -1, bound, brk)
  {
    hide Tiling, Linked, Ordered, Distinct, OffRing;
    DescribedIs(info, l, -1, bound, brk);
    SplitTiling(l, a, n, bound, brk);
    MarkBusy(info, l.ring, a + n, l.owned[a] - n);
    MarkBusy(info[a + n := Busy(l.owned[a] - n)], l.ring, a, n);
  }

  lemma {:induction false} SplitIs(l: Layout, a: nat, n: nat)
    requires a in l.owned && n <= l.owned[a]
    ensures SplitAt(l, a, n) == Layout(l.ring, l.sz, l.owned[a := n][a + n := l.owned[a] - n], l.live + {a + n})
  {
  }

  lemma {:induction false} SplitBack(l: Layout, a: nat, n: nat, info0: Table, info1: Table, info2: Table, l2: Layout)
    requires a in l.live && a in l.owned && 0 < n < l.owned[a] && a + n !in l.owned && a + n !in l.live && a + n < |info0|
    requires info1 == info0[a + n := Busy(l.owned[a] - n)][a := Busy(n)]
    requires forall b :: b in l.live ==> b < |info0|
    requires LiveSame(info1, info2, l2.live)
    requires l2.owned == l.owned[a := n][a + n := l.owned[a] - n] - {a + n} && l2.live == l.live + {a + n} - {a + n}
    ensures l2.owned == l.owned[a := n] && l2.live == l.live
    ensures LiveSame(info0, info2, l.live - {a}) && a < |info2| && info2[a] == Busy(n)
  {
    assert l.live + {a + n} - {a + n} == l.live;
  }

  lemma {:induction false} LiveBelow(info: Table, l: Layout, bound: nat, brk: nat)
    requires Described(info, l, -1, bound, brk)
    ensures forall b :: b in l.live ==> b < |info|
  {
    hide Tiling, Linked;
  }

  /** n blocks of contents moved from src to dst. */
  ghost predicate Moved(mem0: seq<Page>, mem1: seq<Page>, src: nat, dst: nat, n: nat) {
    src + n <= |mem0| && dst + n <= |mem1| && mem1[dst..dst + n] == mem0[src..src + n]
  }

  /** The clusters in live keep their place, size and contents. */
  ghost predicate Undisturbed(l0: Layout, l1: Layout, mem0: seq<Page>, mem1: seq<Page>, live: set<nat>) {
    forall a :: a in live ==>
      && a in l0.owned && a in l1.owned && l1.owned[a] == l0.owned[a]
      && Moved(mem0, mem1, a, a, l0.owned[a])
  }

  lemma {:induction false} SameBelow(a: seq<Page>, b: seq<Page>, n: nat, i: nat, s: nat)
    requires |a| == |b| && n <= |a| && a[..n] == b[..n] && i + s <= n
    ensures a[i..i + s] == b[i..i + s]
  {
    assert a[i..i + s] == a[..n][i..i + s] && b[i..i + s] == b[..n][i..i + s];
  }

  lemma {:induction false} SameAbove(a: seq<Page>, b: seq<Page>, n: nat, i: nat, s: nat)
    requires |a| == |b| && n <= |a| && a[n..] == b[n..] && n <= i && i + s <= |a|
    ensures a[i..i + s] == b[i..i + s]
  {
    assert a[i..i + s] == a[n..][i - n..i + s - n] && b[i..i + s] == b[n..][i - n..i + s - n];
  }

  lemma {:induction false} MoveKeeps(l0: Layout, l1: Layout, bound0: nat, brk0: nat, bound1: nat, brk1: nat,
                                     mem0: seq<Page>, mem1: seq<Page>, mem2: seq<Page>, src: nat, dst: nat, n: nat)
    requires Tiling(l0, -1, bound0, brk0) && Tiling(l1, -1, bound1, brk1) && brk0 <= |mem0| == |mem1| == |mem2|
    requires src in l0.live && src in l0.owned && l0.owned[src] == n && dst in l1.owned && l1.owned[dst] > n
    requires dst + n <= |mem1| && dst !in l0.live - {src}
    requires forall a :: a in l0.live - {src} ==> a in l1.owned && l1.owned[a] == l0.owned[a]
    requires mem1[..brk0] == mem0[..brk0]
    requires src + n <= |mem1| && mem2[dst..dst + n] == mem1[src..src + n]
    requires mem2[..dst] == mem1[..dst] && mem2[dst + n..] == mem1[dst + n..]
    ensures Moved(mem0, mem2, src, dst, n) && Undisturbed(l0, l1, mem0, mem2, l0.live - {src})
  {
    hide Covered, Coalesced, Ordered, RingApart, RingFits;
    SameBelow(mem0, mem1, brk0, src, n);
    forall a | a in l0.live - {src}
      ensures a in l0.owned && a in l1.owned && l1.owned[a] == l0.owned[a] && Moved(mem0, mem2, a, a, l0.owned[a])
    {
      var s := l0.owned[a];
      assert a < dst || dst < a;
      SameBelow(mem0, mem1, brk0, a, s);
      if a < dst {
        SameBelow(mem1, mem2, dst, a, s);
      } else {
        SameAbove(mem1, mem2, dst + n, a, s);
      }
    }
  }

  lemma {:induction false} LiveSameSub(a: Table, b: Table, live: set<nat>, x: nat)
    requires LiveSame(a, b, live)
    ensures LiveSame(a, b, live - {x})
  {
  }

  lemma {:induction false} Restored(l: Layout, block: nat, cur: nat, info0: Table, info1: Table, info2: Table, l2: Layout)
    requires block in l.owned && l.owned[block] == cur && block in l.live && block < |info0| && info0[block] == Busy(cur)
    requires LiveSame(info0, info1, l.live - {block}) && LiveSame(info1, info2, l.live - {block})
    requires block < |info2| && info2[block] == Busy(cur)
    requires l2.owned == (l.owned - {block})[block := cur] && l2.live == l.live - {block} + {block}
    ensures l2.owned == l.owned && l2.live == l.live && LiveSame(info0, info2, l.live)
  {
  }

  lemma {:induction false} RestoredAfter(l: Layout, block: nat, cur: nat, p: nat, gap: nat, info0: Table, info1: Table,
                                         info2: Table, info3: Table, l2: Layout, l3: Layout)
    requires block in l.owned && l.owned[block] == cur && block in l.live && block < |info0| && info0[block] == Busy(cur)
    requires LiveSame(info0, info1, l.live - {block}) && LiveSame(info1, info2, l.live - {block})
    requires LiveSame(info2, info3, l2.live) && p + gap == block && gap > 0 && p !in l.owned - {block}
    requires p < |info2| && info2[p] == Busy(gap) && block < |info3| && info3[block] == Busy(cur)
    requires l2.owned == (l.owned - {block})[p := gap] && l2.live == l.live - {block} + {p}
    requires l3.owned == l2.owned[block := cur] && l3.live == l2.live + {block}
    ensures p in l3.live && p in l3.owned && p < |info3| && info3[p] == Busy(l3.owned[p])
    ensures l3.owned - {p} == l.owned && l3.live - {p} == l.live - {p} && LiveSame(info0, info3, l.live - {p})
  {
  }

  lemma {:induction false} RestoredLast(l: Layout, block: nat, cur: nat, p: nat, info0: Table, info3: Table, info4: Table,
                                        l3: Layout, l4: Layout)
    requires l3.owned - {p} == l.owned && l3.live - {p} == l.live - {p} && LiveSame(info0, info3, l.live - {p})
    requires l4.owned == l3.owned - {p} && l4.live == l3.live - {p} && LiveSame(info3, info4, l4.live)
    requires p !in l.live && block in l.live && p != block
    ensures l4.owned == l.owned && l4.live == l.live && block in l4.live && LiveSame(info0, info4, l.live)
  {
    assert l.live - {p} == l.live;
  }

  // ------------------------------------- the owned regions determine the free list

  /** A free cluster of one tiling is a free cluster of any other with the same
      owned regions, for its blocks are clear. */
  lemma {:induction false} SameCluster(l: Layout, l': Layout, bound: nat, bound': nat, brk: nat, k: nat) returns (j: nat)
    requires Tiling(l, -1, bound, brk) && Tiling(l', -1, bound', brk) && l.owned == l'.owned && 0 < k < |l.ring|
    ensures 0 < j < |l'.ring| == |l'.sz| && l'.ring[j] <= l.ring[k] && l.ring[k] + l.sz[k] <= l'.ring[j] + l'.sz[j]
  {
    hide *;
    RingIs(l, bound, brk);
    TilingIs(l, -1, bound, brk);
    FirstFree(l, bound, brk, k);
    ClusterClear(l, bound, brk, k);
    j := ClearWithin(l', bound', brk, l.ring[k], l.sz[k]);
  }

  /** Clusters of a ring, in order. */
  lemma {:induction false} InOrder(ring: seq<nat>, sz: seq<nat>, i: nat, j: nat)
    requires Ordered(ring, sz) && i <= j < |ring|
    ensures ring[i] <= ring[j] && (i < j ==> ring[i] + sz[i] <= ring[j])
  {
  }

  /** Clusters shared by two rings end before the next of either. */
  lemma {:induction false} PrefixBefore(ring: seq<nat>, sz: seq<nat>, ring': seq<nat>, sz': seq<nat>, k: nat)
    requires Ordered(ring, sz) && k < |ring| && k <= |ring'| && k <= |sz'| && ring'[..k] == ring[..k] && sz'[..k] == sz[..k]
    ensures forall j :: 0 <= j < k ==> ring'[j] + sz'[j] <= ring[k]
  {
    forall j | 0 <= j < k ensures ring'[j] + sz'[j] <= ring[k] {
      assert ring'[j] == ring'[..k][j] == ring[j] && sz'[j] == sz'[..k][j] == sz[j];
    }
  }

  /** Entry k of two such tilings is the same, given that the earlier ones are. */
  lemma {:induction false} SameEntry(l: Layout, l': Layout, bound: nat, bound': nat, brk: nat, k: nat)
    requires Tiling(l, -1, bound, brk) && Tiling(l', -1, bound', brk) && l.owned == l'.owned
    requires 0 < k < |l.ring| && k <= |l'.ring| && l'.ring[..k] == l.ring[..k] && l'.sz[..k] == l.sz[..k]
    ensures k < |l'.ring| && l'.ring[k] == l.ring[k] && l'.sz[k] == l.sz[k]
  {
    var j := SameCluster(l, l', bound, bound', brk, k);
    hide Covered, Coalesced, RegionsApart, RingApart, Ordered;
    PrefixBefore(l.ring, l.sz, l'.ring, l'.sz, k);
    var i := SameCluster(l', l, bound', bound, brk, k);
    PrefixBefore(l'.ring, l'.sz, l.ring, l.sz, k);
    InOrder(l'.ring, l'.sz, k, j);
    InOrder(l.ring, l.sz, k, i);
  }

  lemma {:induction false} SamePrefix(l: Layout, l': Layout, bound: nat, bound': nat, brk: nat, k: nat)
    requires Tiling(l, -1, bound, brk) && Tiling(l', -1, bound', brk) && l.owned == l'.owned && 0 < k <= |l.ring|
    ensures |l'.ring| == |l'.sz| && k <= |l'.ring| && l'.ring[..k] == l.ring[..k] && l'.sz[..k] == l.sz[..k]
  {
    hide Covered, Coalesced, RegionsApart, RingApart, Ordered;
    if k > 1 {
      SamePrefix(l, l', bound, bound', brk, k - 1);
      SameEntry(l, l', bound, bound', brk, k - 1);
      assert l.ring[..k] == l.ring[..k - 1] + [l.ring[k - 1]] && l'.ring[..k] == l'.ring[..k - 1] + [l'.ring[k - 1]];
      assert l.sz[..k] == l.sz[..k - 1] + [l.sz[k - 1]] && l'.sz[..k] == l'.sz[..k - 1] + [l'.sz[k - 1]];
    }
  }

  /** The free list is a function of the owned regions: being sorted and fully
      coalesced leaves it no choice. */
  lemma {:induction false} FreeListDetermined(l: Layout, l': Layout, bound: nat, bound': nat, brk: nat)
    requires Tiling(l, -1, bound, brk) && Tiling(l', -1, bound', brk) && l.owned == l'.owned && l.live == l'.live
    ensures l == l'
  {
    hide Covered, Coalesced, RegionsApart, RingApart, Ordered;
    SamePrefix(l, l', bound, bound', brk, |l.ring|);
    SamePrefix(l', l, bound', bound, brk, |l'.ring|);
    assert l.ring[..|l.ring|] == l.ring && l.sz[..|l.sz|] == l.sz;
    assert l'.ring[..|l'.ring|] == l'.ring && l'.sz[..|l'.sz|] == l'.sz;
  }

  /** The entry after the one taken stays on the ring. */
  lemma {:induction false} NextStays(info: Table, l: Layout, k: nat, bound: nat, brk: nat)
    requires Described(info, l, -1, bound, brk) && 0 < k < |l.ring|
    ensures info[l.ring[k]].next in RemoveAt(l.ring, k)
  {
    hide Tiling;
    var p, n := NeighboursOf(info, l.ring, k);
    var j := if n < k then n else n - 1;
    assert RemoveAt(l.ring, k)[j] == l.ring[n];
  }

  lemma {:induction false} ClearOwned(owned: map<nat, nat>, a: nat, n: nat)
    requires Clear(owned, a, n) && n > 0
    ensures a in owned ==> owned[a] == 0
  {
  }

  lemma {:induction false} BlockPositive(info: Table, l: Layout, k: nat, bound: nat, brk: nat)
    requires Described(info, l, -1, bound, brk) && 0 < k < |l.ring|
    ensures l.ring[k] > 0 && l.ring[k] !in l.owned && l.ring[k] !in l.live
  {
    DescribedIs(info, l, -1, bound, brk);
    TakeAllDescribed(info, l, k, bound, brk);
    hide Tiling, Linked;
  }

  /** Growing leaves the live regions as they were. */
  lemma {:induction false} KeptRegions(l: Layout, l': Layout, at: nat, at': nat, result: nat, n: nat, bound: nat, brk: nat)
    requires Grown(l, l', at, at', result, n) && Tiling(l, -1, bound, brk) && result == brk
    requires at in l.owned && at !in l.live && n > 0
    ensures at' != result && at != result
    ensures forall a :: a in l.live ==> a in l.owned && a in l'.owned && l'.owned[a] == l.owned[a] && a != result
  {
    hide Covered, Coalesced, Ordered, RegionsApart, RingApart, RingFits;
  }

  /** A region fresh from the system becomes live. */
  lemma {:induction false} FreshDescribed(info: Table, l: Layout, a: nat, bound: nat, brk: nat)
    requires Described(info, l, -1, bound, brk) && a in l.owned && a !in l.live && a + l.owned[a] <= bound
    ensures a < |info|
    ensures Described(info[a := Busy(l.owned[a])], l.(live := l.live + {a}), -1, bound, brk)
    ensures LiveSame(info, info[a := Busy(l.owned[a])], l.live)
  {
    hide Tiling, Linked, Ordered, Distinct;
    DescribedIs(info, l, -1, bound, brk);
    LiveOffRing(l, -1, bound, brk, a);
    GapToLive(l, a, bound, bound, brk);
    MarkTaken(info, l.(live := l.live + {a}), a, bound, brk);
  }

  /** The last cluster takes in the region above it. */
  lemma {:induction false} ExtendDescribed(info: Table, l: Layout, a: nat, bound: nat, brk: nat)
    requires Described(info, l, -1, bound, brk) && a in l.owned && a !in l.live && |l.ring| == |l.sz| > 1
    requires l.ring[|l.ring| - 1] + l.sz[|l.ring| - 1] == a && a + l.owned[a] <= bound
    ensures var k := |l.ring| - 1; var info' := SetSize(info, l.ring[k], l.sz[k] + l.owned[a]);
      Described(info', Longer(l, k, a), -1, bound, brk) && LiveSame(info, info', l.live)
  {
    hide Tiling, Linked, Longer, Ordered;
    var k := |l.ring| - 1;
    DescribedIs(info, l, -1, bound, brk);
    GapToLast(l, a, bound, bound, brk);
    Resized(info, l.ring, k, l.sz[k] + l.owned[a]);
    LiveKept(info, SetSize(info, l.ring[k], l.sz[k] + l.owned[a]), l, -1, bound, brk, 0);
    LongerIs(l, k, a);
  }

  /** After growing contiguously, the last free cluster still reaches up to the
      new blocks, and is no shorter, even if the old table has joined it. */
  lemma {:induction false} LastReaches(l: Layout, limit: nat, top: nat, l': Layout, bound: nat, brk: nat,
                                       at: nat, at': nat, result: nat, n: nat, last: nat)
    requires Tiling(l, -1, limit, top) && Tiling(l', -1, bound, brk) && Grown(l, l', at, at', result, n) && at in l.owned
    requires result == top == limit && bound == result + n && n > 0 && limit > 0
    requires last == |l.ring| - 1 && l.ring[last] + l.sz[last] == top
    ensures var k := |l'.ring| - 1; k > 0 && l'.ring[k] + l'.sz[k] == result && l'.sz[k] >= l.sz[last]
  {
    hide *;
    TilingIs(l, -1, limit, top);
    TilingIs(l', -1, bound, brk);
    var k := TopCluster(l, limit, top, l', bound, brk, at, at', result, n, last);
    ClusterSpans(l, limit, top, l', bound, brk, at, at', result, n, last, k);
  }

  /** What was free below the new blocks is free still. */
  lemma {:induction false} StillFree(l: Layout, limit: nat, top: nat, l': Layout, bound: nat, brk: nat,
                                     at: nat, at': nat, result: nat, n: nat, x: nat)
    requires Tiling(l, -1, limit, top) && Tiling(l', -1, bound, brk) && Grown(l, l', at, at', result, n) && at in l.owned
    requires result == top && bound >= result + n && 1 <= x < result && FreeBlock(l.ring, l.sz, x)
    ensures FreeBlock(l'.ring, l'.sz, x)
  {
    hide Tiling, FreeBlock;
    TilingIs(l', -1, bound, brk);
    FreeIffUnowned(l, -1, limit, top, x);
    FreeIffUnowned(l', -1, bound, brk, x);
    GrownBelow(l, l', at, at', result, n, x);
  }

  /** Growing the top adds no region below it. */
  lemma {:induction false} GrownBelow(l: Layout, l': Layout, at: nat, at': nat, result: nat, n: nat, x: nat)
    requires Grown(l, l', at, at', result, n) && at in l.owned && x < result
    ensures OwnedBlock(l'.owned, x) ==> OwnedBlock(l.owned, x)
  {
    forall a | a in l'.owned && a <= x < a + l'.owned[a] ensures OwnedBlock(l.owned, x) {
      OwnedAt(l.owned, a, x);
    }
  }

  /** The free cluster that ends at the new blocks is the last on the ring. */
  lemma {:induction false} TopCluster(l: Layout, limit: nat, top: nat, l': Layout, bound: nat, brk: nat,
                                      at: nat, at': nat, result: nat, n: nat, last: nat) returns (k: nat)
    requires Tiling(l, -1, limit, top) && Tiling(l', -1, bound, brk) && Grown(l, l', at, at', result, n) && at in l.owned
    requires result == top == limit && bound == result + n && n > 0 && limit > 0
    requires last == |l.ring| - 1 && |l.ring| == |l.sz| && l.ring[last] + l.sz[last] == top
    ensures |l'.ring| == |l'.sz| && 0 < k == |l'.ring| - 1 && l'.ring[k] + l'.sz[k] == result
  {
    hide Covered, RegionsApart, Coalesced, Ordered, RingApart;
    assert last > 0 && l.sz[last] > 0;
    FreeAt(l.ring, l.sz, last, result - 1);
    StillFree(l, limit, top, l', bound, brk, at, at', result, n, result - 1);
    k :| 0 <= k < |l'.ring| && l'.ring[k] <= result - 1 < l'.ring[k] + l'.sz[k];
    assert result in l'.owned && l'.owned[result] == n;
    ApartHere(l', k, result);
    var end := |l'.ring| - 1;
    ApartHere(l', end, result);
    InOrder(l'.ring, l'.sz, k, end);
    assert l'.ring[end] + l'.sz[end] <= bound;
  }

  /** Adjacent free blocks belong to one cluster. */
  lemma {:induction false} ClusterSpans(l: Layout, limit: nat, top: nat, l': Layout, bound: nat, brk: nat,
                                        at: nat, at': nat, result: nat, n: nat, last: nat, k: nat)
    requires Tiling(l, -1, limit, top) && Tiling(l', -1, bound, brk) && Grown(l, l', at, at', result, n) && at in l.owned
    requires result == top == limit && bound == result + n && n > 0 && limit > 0
    requires last == |l.ring| - 1 && |l.ring| == |l.sz| && l.ring[last] + l.sz[last] == top
    requires |l'.ring| == |l'.sz| && 0 < k < |l'.ring| && l'.ring[k] + l'.sz[k] == result
    ensures l'.sz[k] >= l.sz[last]
  {
    hide Covered, RegionsApart, RingApart;
    if l'.ring[k] > l.ring[last] {
      var x := l'.ring[k] - 1;
      FreeAt(l.ring, l.sz, last, x);
      StillFree(l, limit, top, l', bound, brk, at, at', result, n, x);
      var j :| 0 <= j < |l'.ring| && l'.ring[j] <= x < l'.ring[j] + l'.sz[j];
      NoneBefore(l', k, j);
    }
  }

  /** No cluster ends where the next starts. */
  lemma {:induction false} NoneBefore(l: Layout, k: nat, j: nat)
    requires |l.ring| == |l.sz| && Ordered(l.ring, l.sz) && Coalesced(l.ring, l.sz, -1)
    requires 0 < k < |l.ring| && j < |l.ring|
    ensures !(l.ring[j] < l.ring[k] <= l.ring[j] + l.sz[j])
  {
    assert l.ring[k - 1] + l.sz[k - 1] != l.ring[k] && l.ring[k - 1] < l.ring[k];
    if j < k - 1 { assert l.ring[j] + l.sz[j] <= l.ring[k - 1]; }
  }

  /** What growing by n blocks at result does to the owned regions: they appear,
      and a table that moved leaves its old place for the blocks above them. */
  ghost predicate Grown(l: Layout, l': Layout, at: nat, at': nat, result: nat, n: nat) {
    if at' == at then l'.owned == l.owned[result := n] && l'.ring == l.ring && l'.sz == l.sz
    else at' == result + n && at' in l'.owned && l'.owned == l.owned[result := n][at' := l'.owned[at']] - {at}
  }

  lemma {:induction false} GrownOnce(l: Layout, at: nat, result: nat, n: nat)
    ensures Grown(l, l.(owned := l.owned[result := n]), at, at, result, n)
  {
  }

  lemma {:induction false} GrownMoved(l: Layout, l': Layout, at: nat, result: nat, n: nat, t: nat)
    requires at < result && l'.owned == l.owned[result := n][result + n := t] - {at}
    ensures Grown(l, l', at, result + n, result, n)
  {
  }

  lemma {:induction false} LiveBack(live: set<nat>, a: nat)
    requires a !in live
    ensures live + {a} - {a} == live
  {
  }

  lemma {:induction false} TablePositive(n: nat)
    requires n > 0
    ensures TableBlocks(n) > 0
  {
  }

  lemma {:induction false} GrowOnce(info: Table, l: Layout, n: nat, bound: nat, brk: nat)
    requires Described(info, l, -1, bound, brk) && n > 0 && brk > 0
    ensures brk !in l.owned && brk !in l.live
    ensures Described(info, l.(owned := l.owned[brk := n]), -1, bound, brk + n)
  {
    hide Tiling, Linked;
    GrowGap(l, n, bound, brk);
  }

  lemma {:induction false} GrowTwice(info: Table, l: Layout, n: nat, t: nat, bound: nat, brk: nat)
    requires Described(info, l, -1, bound, brk) && n > 0 && brk > 0 && t > 0
    ensures brk !in l.owned && brk !in l.live && brk + n !in l.owned && brk + n !in l.live
    ensures Described(info, l.(owned := l.owned[brk := n][brk + n := t]), -1, bound, brk + n + t)
  {
    hide Described;
    GrowOnce(info, l, n, bound, brk);
    GrowOnce(info, l.(owned := l.owned[brk := n]), t, bound, brk + n);
  }

  lemma {:induction false} RaiseBound(info: Table, l: Layout, bound: nat, bound': nat, brk: nat)
    requires Described(info, l, -1, bound, brk) && bound <= bound' <= brk && bound' <= |info|
    ensures Described(info, l, -1, bound', brk)
  {
    hide Covered, Linked, RegionsApart, RingApart, Ordered, Coalesced;
  }

  /** The copied table describes the same layout, with the old one live. */
  lemma {:induction false} TableCopied(info: Table, l: Layout, bound: nat, brk: nat, newsize: nat, at: nat, bound': nat)
    requires Described(info, l, -1, bound, brk) && |info| <= newsize && bound <= bound' <= newsize && bound' <= brk
    requires at in l.owned && at !in l.live && at + l.owned[at] <= bound'
    ensures at < newsize
    ensures var info' := (info + seq(newsize - |info|, _ => Free(0, 0, 0)))[at := Busy(l.owned[at])];
      Described(info', l.(live := l.live + {at}), -1, bound', brk) && LiveSame(info, info', l.live)
  {
    hide Tiling, Linked, Ordered, Distinct;
    DescribedIs(info, l, -1, bound, brk);
    LiveOffRing(l, -1, bound, brk, at);
    var more := info + seq(newsize - |info|, _ => Free(0, 0, 0));
    TableExtended(info, more, l.ring);
    GapToLive(l, at, bound, bound', brk);
    MarkTaken(more, l.(live := l.live + {at}), at, bound', brk);
  }

  lemma {:induction false} TableExtended(info: Table, more: Table, ring: seq<nat>)
    requires Linked(info, ring) && |info| <= |more| && forall i :: 0 <= i < |info| ==> more[i] == info[i]
    ensures Linked(more, ring) && Sizes(more, ring) == Sizes(info, ring)
  {
    forall j | 0 <= j < |ring| ensures Joined(more, ring, j) {
      assert Joined(info, ring, j);
    }
  }

  lemma {:induction false} LiveSameTwice(a: Table, b: Table, c: Table, live: set<nat>)
    requires LiveSame(a, b, live) && LiveSame(b, c, live)
    ensures LiveSame(a, c, live)
  {
  }

  lemma {:induction false} LiveSameThrice(a: Table, b: Table, c: Table, d: Table, live: set<nat>)
    requires LiveSame(a, b, live) && LiveSame(b, c, live) && LiveSame(c, d, live)
    ensures LiveSame(a, d, live)
  {
  }

  lemma {:induction false} LiveSameRefl(info: Table, l: Layout, slack: int, bound: nat, brk: nat)
    requires Described(info, l, slack, bound, brk)
    ensures LiveSame(info, info, l.live)
  {
    hide Tiling, Linked;
  }

  lemma {:induction false} NoSlackDescribed(info: Table, l: Layout, k: nat, bound: nat, brk: nat)
    requires Described(info, l, k, bound, brk) && k < |l.ring| == |l.sz|
    requires k + 1 < |l.ring| ==> l.ring[k] + l.sz[k] != l.ring[k + 1]
    ensures Described(info, l, -1, bound, brk)
  {
    hide Tiling, Matches;
    NoSlack(l, k, bound, brk);
  }

  lemma {:induction false} RingZero(info: Table, ring: seq<nat>)
    requires OnTable(info, ring)
    ensures 1 <= |ring| && ring[0] == 0 && forall k :: 0 <= k < |ring| ==> ring[k] < |info| && info[ring[k]].Free?
  {
  }

  /** Entries after the sentinel are positive in address order. */
  lemma {:induction false} RingPositive(info: Table, ring: seq<nat>, k: nat)
    requires Linked(info, ring) && k < |ring|
    ensures k + 1 < |ring| ==> ring[k + 1] > 0
  {
    if k + 1 < |ring| {
      assert info[ring[k + 1]].size > 0;
    }
  }

  lemma {:induction false} OffRingAt(ring: seq<nat>, b: nat, k: nat)
    requires OffRing(ring, b) && k < |ring|
    ensures ring[k] != b
  {
  }
}
