/** malloc, free and realloc: fragments of blocks for small requests, clusters
    of blocks for large ones. */
module Malloc {
  import opened Bits
  import Permutations
  import opened FreeList
  import opened HeapLayout
  import opened HeapRoom
  import opened Heap
  import opened FragLists

  // --------------------------------------------------- the table and the lists

  ghost predicate Entry(e: Info, r: Run) {
    && e.Frag? && e.log == r.log && e.nfree == |r.offs|
    && (r.offs != [] ==> e.first * Size(r.log) == r.offs[0])
  }

  /** runs covers exactly the fragmented blocks and agrees with the table. */
  ghost predicate Marked(info: Table, live: set<nat>, runs: Runs) {
    && (forall b :: b in runs ==> b in live && b < |info| && Entry(info[b], runs[b]))
    && (forall b :: b in live && b < |info| && info[b].Frag? ==> b in runs)
  }

  /** _fragblocks counts the blocks of each fragment size. */
  ghost predicate Counted(fragblocks: seq<nat>, runs: Runs) {
    |fragblocks| == BLOCKLOG && forall log :: 0 <= log < BLOCKLOG ==> fragblocks[log] == |Blocks(runs, log)|
  }

  /** The table changed, but not where blocks are fragmented. */
  lemma {:induction false} MarkedKept(info: Table, info': Table, live: set<nat>, live': set<nat>, runs: Runs)
    requires Marked(info, live, runs) && forall b :: b in runs ==> b in live'
    requires forall b :: b in live' ==> b < |info'|
    requires forall b :: b in live' && b in live ==> b < |info| && info'[b] == info[b]
    requires forall b :: b in live' && b !in live ==> info'[b].Busy?
    ensures Marked(info', live', runs)
  {
  }

  lemma {:induction false} MarkedSet(info: Table, live: set<nat>, runs: Runs, b: nat, e: Info, r: Run)
    requires Marked(info, live, runs) && b in live && b < |info| && Entry(e, r)
    ensures Marked(info[b := e], live, runs[b := r])
  {
  }

  lemma {:induction false} MarkedWhole(info: Table, live: set<nat>, runs: Runs, b: nat, n: nat)
    requires Marked(info, live, runs) && b in live && b < |info|
    ensures Marked(info[b := Busy(n)], live, runs - {b})
  {
  }

  lemma {:induction false} CountedSame(fragblocks: seq<nat>, runs: Runs, b: nat, offs: seq<nat>)
    requires Counted(fragblocks, runs) && b in runs
    ensures Counted(fragblocks, runs[b := Run(runs[b].log, offs)])
  {
    forall log | 0 <= log < BLOCKLOG ensures fragblocks[log] == |Blocks(runs[b := Run(runs[b].log, offs)], log)| {
      BlocksSame(runs, b, offs, log);
    }
  }

  lemma {:induction false} CountedMore(fragblocks: seq<nat>, runs: Runs, b: nat, offs: seq<nat>, log: nat)
    requires Counted(fragblocks, runs) && b !in runs && log < BLOCKLOG
    ensures Counted(fragblocks[log := fragblocks[log] + 1], runs[b := Run(log, offs)])
  {
    var more := fragblocks[log := fragblocks[log] + 1];
    forall log' | 0 <= log' < BLOCKLOG ensures more[log'] == |Blocks(runs[b := Run(log, offs)], log')| {
      BlocksAdded(runs, b, offs, log, log');
    }
  }

  lemma {:induction false} CountedLess(fragblocks: seq<nat>, runs: Runs, b: nat)
    requires Counted(fragblocks, runs) && b in runs && runs[b].log < BLOCKLOG && fragblocks[runs[b].log] > 0
    ensures Counted(fragblocks[runs[b].log := fragblocks[runs[b].log] - 1], runs - {b})
  {
    var less := fragblocks[runs[b].log := fragblocks[runs[b].log] - 1];
    forall log' | 0 <= log' < BLOCKLOG ensures less[log'] == |Blocks(runs - {b}, log')| {
      BlocksRemoved(runs, b, log');
    }
  }

  // -------------------------------------------------- the regions in use

  /** The size of the region in use at q, or 0 if there is none. */
  ghost function SizeAt(l: Layout, runs: Runs, q: Ptr): nat {
    if !q.At? then 0
    else if q.block in runs then
      if Boundary(runs[q.block].log, q.offset) && q.offset !in runs[q.block].offs then Size(runs[q.block].log) else 0
    else if q.block in l.live && q.block in l.owned && q.offset == 0 then l.owned[q.block] * BLOCKSIZE
    else 0
  }

  /** Byte j of the region at q. */
  ghost function ByteAt(mem: seq<Page>, q: Ptr, j: nat): int {
    if q.At? && q.block + (q.offset + j) / BLOCKSIZE < |mem|
    then mem[q.block + (q.offset + j) / BLOCKSIZE][(q.offset + j) % BLOCKSIZE] else 0
  }

  /** The n bytes at q are those that were at p. */
  ghost predicate CopyOf(mem0: seq<Page>, p: Ptr, mem1: seq<Page>, q: Ptr, n: nat) {
    forall j :: 0 <= j < n ==> ByteAt(mem1, q, j) == ByteAt(mem0, p, j)
  }

  /** Regions in use, p aside, keep place, size and contents. */
  ghost predicate Undamaged(l0: Layout, runs0: Runs, mem0: seq<Page>, l1: Layout, runs1: Runs, mem1: seq<Page>, p: Ptr) {
    forall q :: q != p && SizeAt(l0, runs0, q) > 0 ==>
      SizeAt(l1, runs1, q) == SizeAt(l0, runs0, q) && CopyOf(mem0, q, mem1, q, SizeAt(l0, runs0, q))
  }

  /** The regions in use are those of before, less p, plus r. */
  ghost predicate Swapped(l0: Layout, runs0: Runs, l1: Layout, runs1: Runs, p: Ptr, r: Ptr) {
    && (r != Null ==> r == p || SizeAt(l0, runs0, r) == 0)
    && (p != r ==> SizeAt(l1, runs1, p) == 0)
    && forall q :: q != p && q != r ==> SizeAt(l1, runs1, q) == SizeAt(l0, runs0, q)
  }

  lemma {:induction false} WithinPage(off: nat, j: nat)
    requires off + j < 4096
    ensures (off + j) / BLOCKSIZE == 0 && (off + j) % BLOCKSIZE == off + j
  {
  }

  /** A region in use lies below the break. */
  lemma {:induction false} RegionFits(l: Layout, runs: Runs, q: Ptr, brk: nat, j: nat)
    requires AllSound(runs) && j < SizeAt(l, runs, q)
    requires forall a :: a in l.live ==> a in l.owned && a + l.owned[a] <= brk && l.owned[a] > 0
    requires forall b :: b in runs ==> b in l.live
    ensures q.At? && q.block + (q.offset + j) / BLOCKSIZE < brk
    ensures q.block in runs ==> q.offset + j < 4096
  {
    if q.block in runs {
      var log := runs[q.block].log;
      assert Sound(runs[q.block]);
      FragmentFits(log, q.offset, j);
    } else {
      assert j / 4096 < l.owned[q.block];
    }
  }

  lemma {:induction false} FragmentFits(log: nat, off: nat, j: nat)
    requires log <= BLOCKLOG && Boundary(log, off) && j < Size(log)
    ensures off + j < 4096 && (off + j) / Size(log) == off / Size(log)
  {
    Fills(log);
    Index(log, off);
    hide Size, PerBlock;
    var q := off / Size(log);
    MulLess(q, PerBlock(log), Size(log));
    DivModUnique(off + j, Size(log), q, j);
  }

  /** Two regions in use never overlap: a byte belongs to one at most. */
  lemma {:induction false} RegionsDisjoint(l: Layout, runs: Runs, p: Ptr, i: nat, q: Ptr, j: nat)
    requires AllSound(runs) && i < SizeAt(l, runs, p) && j < SizeAt(l, runs, q) && p != q
    requires forall a :: a in l.live ==> a in l.owned && l.owned[a] > 0
    requires forall b :: b in runs ==> b in l.live && l.owned[b] == 1
    requires forall a, b :: a in l.live && b in l.live && a < b ==> a + l.owned[a] <= b
    ensures p.block + (p.offset + i) / BLOCKSIZE != q.block + (q.offset + j) / BLOCKSIZE
         || (p.offset + i) % BLOCKSIZE != (q.offset + j) % BLOCKSIZE
  {
    BlockOf(l, runs, p, i);
    BlockOf(l, runs, q, j);
    if p.block == q.block && p.block in runs {
      var log := runs[p.block].log;
      assert Sound(runs[p.block]);
      FragmentFits(log, p.offset, i);
      FragmentFits(log, q.offset, j);
      Index(log, p.offset);
      Index(log, q.offset);
      assert p.offset + i != q.offset + j;
    }
  }

  /** The blocks of a region are those of its live cluster. */
  lemma {:induction false} BlockOf(l: Layout, runs: Runs, p: Ptr, i: nat)
    requires AllSound(runs) && i < SizeAt(l, runs, p)
    requires forall a :: a in l.live ==> a in l.owned && l.owned[a] > 0
    requires forall b :: b in runs ==> b in l.live && l.owned[b] == 1
    ensures p.At? && p.block in l.live && (p.offset + i) / BLOCKSIZE < l.owned[p.block]
    ensures p.block in runs ==> p.offset + i < 4096
    ensures p.block !in runs ==> p.offset == 0
  {
    if p.block in runs {
      assert Sound(runs[p.block]);
      FragmentFits(runs[p.block].log, p.offset, i);
    }
  }

  /** Blocks below brk unchanged, so every region keeps its contents. */
  lemma {:induction false} ContentsKept(l: Layout, runs: Runs, mem0: seq<Page>, mem1: seq<Page>, brk: nat, q: Ptr)
    requires AllSound(runs) && brk <= |mem0| == |mem1| && mem1[..brk] == mem0[..brk]
    requires forall a :: a in l.live ==> a in l.owned && a + l.owned[a] <= brk && l.owned[a] > 0
    requires forall b :: b in runs ==> b in l.live
    ensures CopyOf(mem0, q, mem1, q, SizeAt(l, runs, q))
  {
    forall j | 0 <= j < SizeAt(l, runs, q) ensures ByteAt(mem1, q, j) == ByteAt(mem0, q, j) {
      RegionFits(l, runs, q, brk, j);
      var b := q.block + (q.offset + j) / BLOCKSIZE;
      assert mem1[b] == mem1[..brk][b] && mem0[b] == mem0[..brk][b];
    }
  }

  /** Moved blocks are moved bytes. */
  lemma {:induction false} BlocksCopied(mem0: seq<Page>, mem1: seq<Page>, src: nat, dst: nat, n: nat)
    requires Moved(mem0, mem1, src, dst, n)
    ensures CopyOf(mem0, At(src, 0), mem1, At(dst, 0), n * BLOCKSIZE)
  {
    forall j | 0 <= j < n * BLOCKSIZE ensures ByteAt(mem1, At(dst, 0), j) == ByteAt(mem0, At(src, 0), j) {
      var k := j / BLOCKSIZE;
      assert k < n;
      assert mem1[dst + k] == mem1[dst..dst + n][k] && mem0[src + k] == mem0[src..src + n][k];
    }
  }

  /** A copy into one region in use changes no other. */
  lemma {:induction false} CopySafe(l: Layout, runs: Runs, mem0: seq<Page>, mem1: seq<Page>, r: Ptr, n: nat, q: Ptr)
    requires AllSound(runs) && n <= SizeAt(l, runs, r) && n <= 4096 && |mem0| == |mem1| && q != r && r.At?
    requires r.block < |mem0| && r.offset + n <= 4096
    requires forall a :: a in l.live ==> a in l.owned && l.owned[a] > 0
    requires forall b :: b in runs ==> b in l.live && l.owned[b] == 1
    requires forall a, b :: a in l.live && b in l.live && a < b ==> a + l.owned[a] <= b
    requires mem1[r.block][..r.offset] == mem0[r.block][..r.offset]
    requires mem1[r.block][r.offset + n..] == mem0[r.block][r.offset + n..]
    requires forall b :: 0 <= b < |mem0| && b != r.block ==> mem1[b] == mem0[b]
    ensures CopyOf(mem0, q, mem1, q, SizeAt(l, runs, q))
  {
    forall j | 0 <= j < SizeAt(l, runs, q) ensures ByteAt(mem1, q, j) == ByteAt(mem0, q, j) {
      var b, o := q.block + (q.offset + j) / BLOCKSIZE, (q.offset + j) % BLOCKSIZE;
      if b == r.block && b < |mem0| {
        if r.offset <= o < r.offset + n {
          WithinPage(r.offset, o - r.offset);
          RegionsDisjoint(l, runs, r, o - r.offset, q, j);
          assert false;
        }
        OutsideSame(mem0[b], mem1[b], r.offset, n, o);
      }
    }
  }

  lemma {:induction false} OutsideSame(a: Page, b: Page, at: nat, n: nat, o: nat)
    requires at + n <= 4096 && b[..at] == a[..at] && b[at + n..] == a[at + n..] && o < 4096
    requires o < at || at + n <= o
    ensures b[o] == a[o]
  {
    if o < at {
      assert b[o] == b[..at][o] && a[o] == a[..at][o];
    } else {
      assert b[o] == b[at + n..][o - at - n] && a[o] == a[at + n..][o - at - n];
    }
  }

  lemma {:induction false} BytesCopied(mem0: seq<Page>, mem1: seq<Page>, p: Ptr, r: Ptr, n: nat)
    requires p.At? && r.At? && p.block < |mem0| && r.block < |mem1| && p.offset + n <= 4096 && r.offset + n <= 4096
    requires mem1[r.block][r.offset..r.offset + n] == mem0[p.block][p.offset..p.offset + n]
    ensures CopyOf(mem0, p, mem1, r, n)
  {
    forall j | 0 <= j < n ensures ByteAt(mem1, r, j) == ByteAt(mem0, p, j) {
      WithinPage(p.offset, j);
      WithinPage(r.offset, j);
      assert mem1[r.block][r.offset + j] == mem1[r.block][r.offset..r.offset + n][j];
      assert mem0[p.block][p.offset + j] == mem0[p.block][p.offset..p.offset + n][j];
    }
  }

  /** "Determine the logarithm to base two of the fragment size." */
  method LogOf(size: nat) returns (log: nat)
    requires 2 <= size
    ensures log >= 1 && Size(log - 1) < size <= Size(log)
  {
    var rest := (size - 1) / 2;
    log := 1;
    while rest != 0
      invariant log >= 1 && rest == (size - 1) / Size(log)
      invariant Size(log - 1) < size
      decreases rest
    {
      DivDiv(size - 1, Size(log), 2);
      Reach(size - 1, Size(log));
      rest := rest / 2;
      log := log + 1;
    }
    Reach(size - 1, Size(log));
  }

  lemma {:induction false} Reach(a: nat, m: nat)
    requires m > 0
    ensures a / m == 0 <==> a < m
  {
    assert a == a / m * m + a % m;
    MulLess(0, a / m, m);
  }

  /** A log found for a small size is one of the sizes there is a list for. */
  lemma {:induction false} SmallLog(size: nat, log: nat)
    requires 8 <= size <= BLOCKSIZE / 2 && log >= 1 && Size(log - 1) < size <= Size(log)
    ensures MINLOG <= log < BLOCKLOG
  {
    Pow2Values();
    Pow2Add(8, 3);
    assert Size(2) == 4 && Size(11) == 2048;
    if log < 3 {
      SizeOrder(log, 2);
    }
    if log > 11 {
      SizeOrder(11, log - 1);
    }
  }

  lemma {:induction false} SizeOrder(a: nat, b: nat)
    requires a <= b
    ensures Size(a) <= Size(b)
  {
    if a < b {
      SizeOrder(a, b - 1);
    }
  }

  lemma {:induction false} LargestFragment()
    ensures Size(11) == BLOCKSIZE / 2
  {
    Pow2Values();
    Pow2Add(8, 3);
  }

  /** The smallest size, from number log on, that n bytes fit, or the largest. */
  function LogFrom(n: nat, log: nat): (r: nat)
    requires MINLOG <= log < BLOCKLOG
    ensures log <= r < BLOCKLOG && (log < r ==> Size(r - 1) < n)
    decreases BLOCKLOG - log
  {
    if n <= Size(log) || log == BLOCKLOG - 1 then log else LogFrom(n, log + 1)
  }

  lemma {:induction false} LogFits(n: nat, log: nat)
    requires MINLOG <= log < BLOCKLOG && n <= BLOCKSIZE / 2
    ensures n <= Size(LogFrom(n, log))
    decreases BLOCKLOG - log
  {
    hide Size;
    LargestFragment();
    if !(n <= Size(log) || log == BLOCKLOG - 1) { LogFits(n, log + 1); }
  }

  lemma {:induction false} HalfBlock()
    ensures BLOCKSIZE / 2 == 2048
  {
  }

  /** What a request is rounded up to. */
  function RegionSize(request: nat): (r: nat) {
    if request <= BLOCKSIZE / 2 then Size(LogFrom(request, MINLOG)) else Blockify(request) * BLOCKSIZE
  }

  /** The logarithm found for a small size is the one it is rounded up to. */
  lemma {:induction false} LogFound(request: nat, log: nat)
    requires var size := if request < 8 then 8 else request;
      request <= BLOCKSIZE / 2 && log >= 1 && Size(log - 1) < size <= Size(log)
    ensures MINLOG <= log < BLOCKLOG && log == LogFrom(request, MINLOG) && RegionSize(request) == Size(log) >= request
  {
    hide Size;
    SmallLog(if request < 8 then 8 else request, log);
    var r := LogFrom(request, MINLOG);
    LogFits(request, MINLOG);
    assert Size(3) == 8 by { SmallestFragment(); }
    SizeOrder(3, r);
    if r < log { SizeOrder(r, log - 1); }
    if r > log { SizeOrder(log, r - 1); }
  }

  lemma {:induction false} SmallestFragment()
    ensures Size(3) == 8
  {
    Pow2Values();
  }

  /** No block of fragments of one size has a free one. */
  ghost predicate NoFragment(runs: Runs, log: nat) {
    forall b :: b in runs && runs[b].log == log ==> runs[b].offs == []
  }

  lemma {:induction false} NoFragmentIs(nodes: Nodes, order: seq<seq<nat>>, runs: Runs, log: nat)
    requires Lists(nodes, order, runs) && MINLOG <= log < BLOCKLOG
    ensures |order| == BLOCKLOG && (order[log] == [] <==> NoFragment(runs, log))
  {
    ListsIs(nodes, order, runs, log);
    hide Lists, ListOk, AllLists, CellsFree, AllSound;
    if order[log] != [] {
      var b := order[log][0];
      assert b in runs && runs[b].log == log && runs[b].offs != [];
    }
  }

  // ------------------------------------------------ the regions, step by step

  ghost predicate Fragmented(l: Layout, runs: Runs) {
    AllSound(runs) && forall b :: b in runs ==> b in l.live && b in l.owned && l.owned[b] == 1
  }

  lemma {:induction false} FragmentsLive(info: Table, l: Layout, brk: nat, mem: seq<Page>, runs: Runs)
    requires LiveFit(info, l, brk, mem) && Marked(info, l.live, runs) && AllSound(runs)
    ensures Fragmented(l, runs)
  {
    forall b | b in runs ensures b in l.live && b in l.owned && l.owned[b] == 1 {
      assert Entry(info[b], runs[b]);
    }
  }

  /** A fragment leaves or joins the free ones of its block. */
  lemma {:induction false} OneFragment(l: Layout, runs: Runs, b: nat, offs: seq<nat>, off: nat)
    requires b in runs && MINLOG <= runs[b].log < BLOCKLOG && Boundary(runs[b].log, off)
    requires forall o :: o != off ==> (o in offs <==> o in runs[b].offs)
    ensures forall q :: q != At(b, off) ==> SizeAt(l, runs[b := Run(runs[b].log, offs)], q) == SizeAt(l, runs, q)
    ensures SizeAt(l, runs, At(b, off)) == (if off in runs[b].offs then 0 else Size(runs[b].log))
    ensures SizeAt(l, runs[b := Run(runs[b].log, offs)], At(b, off)) == (if off in offs then 0 else Size(runs[b].log))
  {
    hide Boundary, Size;
  }

  /** A whole cluster becomes live, or a live one goes. */
  lemma {:induction false} OneCluster(l: Layout, l': Layout, runs: Runs, b: nat)
    requires b !in runs
    requires forall a :: a != b ==> (a in l.live <==> a in l'.live)
    requires forall a :: a in l.live && a != b ==> a in l.owned && a in l'.owned && l'.owned[a] == l.owned[a]
    ensures forall q :: q != At(b, 0) ==> SizeAt(l', runs, q) == SizeAt(l, runs, q)
    ensures SizeAt(l', runs, At(b, 0)) == if b in l'.live && b in l'.owned then l'.owned[b] * BLOCKSIZE else 0
  {
    hide Boundary, Size;
  }

  /** A whole block becomes a fragmented one with its first fragment in use. */
  lemma {:induction false} BlockBroken(l: Layout, runs: Runs, b: nat, r: Run)
    requires b !in runs && MINLOG <= r.log < BLOCKLOG
    requires forall o :: Boundary(r.log, o) ==> (o in r.offs <==> o != 0)
    ensures forall q :: q != At(b, 0) ==> SizeAt(l, runs[b := r], q) == SizeAt(l, runs, q)
    ensures SizeAt(l, runs[b := r], At(b, 0)) == Size(r.log)
  {
    hide Size;
    assert Boundary(r.log, 0) by { Fills(r.log); }
    hide Boundary;
  }

  /** A block whose one fragment in use is at off is made whole. */
  lemma {:induction false} BlockWhole(l: Layout, runs: Runs, b: nat, off: nat)
    requires b in runs && b in l.live && b in l.owned && l.owned[b] == 1
    requires forall o :: Boundary(runs[b].log, o) && o != off ==> o in runs[b].offs
    ensures forall q :: q != At(b, off) && q != At(b, 0) ==> SizeAt(l, runs - {b}, q) == SizeAt(l, runs, q)
    ensures off != 0 ==> SizeAt(l, runs, At(b, 0)) == 0 && SizeAt(l, runs - {b}, At(b, off)) == 0
  {
    hide Boundary, Size;
  }

  // ------------------------------------------------------ the steps of malloc

  /** A list is empty exactly when its head says so; otherwise its first cell is
      the first free fragment of its first block. */
  lemma {:induction false} HeadOf(nodes: Nodes, order: seq<seq<nat>>, runs: Runs, log: nat)
    requires Lists(nodes, order, runs) && MINLOG <= log < BLOCKLOG
    ensures |order| == BLOCKLOG && Head(log) in nodes && (nodes[Head(log)].next == Null <==> order[log] == [])
    ensures order[log] != [] ==> order[log][0] in runs && runs[order[log][0]].log == log && runs[order[log][0]].offs != []
    ensures order[log] != [] ==> nodes[Head(log)].next == At(order[log][0], runs[order[log][0]].offs[0])
  {
    ListsIs(nodes, order, runs, log);
    hide Lists, ListOk, AllLists, CellsFree;
    assert Hooked(nodes, Full(log, order[log], runs), 0);
    if order[log] != [] {
      var at := RunAt(log, order[log], runs, 0);
    }
  }

  /** The entry of a block whose first free fragment has been taken. */
  function AfterPop(e: Info, next: Ptr): (r: Info)
    requires e.Frag? && e.nfree > 0
    ensures r.Frag?
  {
    Frag(e.log, e.nfree - 1, if e.nfree - 1 != 0 && next.At? then NumberOf(e.log, next.offset) else e.first)
  }

  /** Taking the first cell of a list. */
  lemma {:induction false} PopStep(info: Table, l: Layout, nodes: Nodes, fragblocks: seq<nat>, order: seq<seq<nat>>,
                                   runs: Runs, log: nat) returns (order': seq<seq<nat>>, runs': Runs)
    requires Lists(nodes, order, runs) && Marked(info, l.live, runs) && Counted(fragblocks, runs)
    requires MINLOG <= log < BLOCKLOG && Head(log) in nodes && nodes[Head(log)].next != Null
    ensures var r := nodes[Head(log)].next;
      && r.At? && r in nodes && nodes[r].prev in nodes && (nodes[r].next != Null ==> nodes[r].next in nodes)
      && r.block in l.live && r.block < |info| && info[r.block].Frag? && info[r.block].nfree > 0
      && Lists(CutOut(nodes, nodes[r].prev, nodes[r].next) - {r}, order', runs')
      && Marked(info[r.block := AfterPop(info[r.block], nodes[r].next)], l.live, runs') && Counted(fragblocks, runs')
      && SizeAt(l, runs, r) == 0 && SizeAt(l, runs', r) == Size(log)
      && forall q :: q != r ==> SizeAt(l, runs', q) == SizeAt(l, runs, q)
  {
    HeadOf(nodes, order, runs, log);
    ListsIs(nodes, order, runs, log);
    var b := order[log][0];
    var offs := runs[b].offs;
    runs', order' := runs[b := Run(log, offs[1..])], order[log := AfterCut(order[log], runs, 0, 1)];
    CutLists(nodes, order, runs, runs', log, 0, 1);
    CutRun(nodes, order[log], runs, log, 0, 1);
    assert CellsOf(b, offs[..1]) == {At(b, offs[0])};
    assert Sound(runs[b]) && Entry(info[b], runs[b]);
    PopEntry(info[b], runs[b], nodes[At(b, offs[0])].next, b);
    MarkedSet(info, l.live, runs, b, AfterPop(info[b], nodes[At(b, offs[0])].next), Run(log, offs[1..]));
    CountedSame(fragblocks, runs, b, offs[1..]);
    TailOf(offs);
    OneFragment(l, runs, b, offs[1..], offs[0]);
    hide Lists, Marked, Counted, CutOut, CellsFree, AllLists, AllSound, ListOk;
  }

  lemma {:induction false} TailOf(offs: seq<nat>)
    requires offs != [] && Permutations.Distinct(offs)
    ensures offs[0] !in offs[1..] && forall o :: o != offs[0] ==> (o in offs[1..] <==> o in offs)
  {
    assert offs == [offs[0]] + offs[1..];
  }

  lemma {:induction false} PopEntry(e: Info, r: Run, next: Ptr, b: nat)
    requires Sound(r) && Entry(e, r) && r.offs != [] && (1 < |r.offs| ==> next == At(b, r.offs[1]))
    ensures Entry(AfterPop(e, next), Run(r.log, r.offs[1..]))
  {
    if 1 < |r.offs| {
      assert Boundary(r.log, r.offs[1]);
      Index(r.log, r.offs[1]);
    }
  }

  // --------------------------------------------------------- the steps of free

  /** The block a fragment in use belongs to, and where it is on its list. */
  lemma {:induction false} InUseBlock(info: Table, l: Layout, nodes: Nodes, order: seq<seq<nat>>, runs: Runs, p: Ptr) returns (i: nat)
    requires Lists(nodes, order, runs) && Marked(info, l.live, runs) && SizeAt(l, runs, p) > 0
    ensures p.At? && p.block in l.live && (p.block < |info| && info[p.block].Frag? ==> p.block in runs)
    ensures p.block in runs ==> p.block < |info| && Entry(info[p.block], runs[p.block]) && Sound(runs[p.block])
    ensures p.block in runs ==> Boundary(runs[p.block].log, p.offset) && p.offset !in runs[p.block].offs
    ensures p.block !in runs ==> p.offset == 0 && p.block in l.owned
    ensures p.block in runs && runs[p.block].offs != [] ==>
      var log := runs[p.block].log;
      MINLOG <= log < BLOCKLOG && |order| == BLOCKLOG && Has(runs, order[log]) && i < |order[log]| && order[log][i] == p.block
  {
    i := 0;
    if p.block in runs {
      assert Sound(runs[p.block]);
      var log := runs[p.block].log;
      ListsIs(nodes, order, runs, log);
      if runs[p.block].offs != [] {
        i := IndexOn(order[log], p.block);
      }
    }
  }

  /** "link this fragment into the fragment list after the first free fragment of
      this block" */
  lemma {:induction false} InsertStep(info: Table, l: Layout, nodes: Nodes, fragblocks: seq<nat>, order: seq<seq<nat>>,
                                      runs: Runs, p: Ptr) returns (runs': Runs)
    requires Lists(nodes, order, runs) && Marked(info, l.live, runs) && Counted(fragblocks, runs)
    requires SizeAt(l, runs, p) > 0 && p.At? && p.block in runs && p.block < |info| && info[p.block].Frag? && info[p.block].nfree > 0
    ensures var e := info[p.block]; var first := At(p.block, e.first * Size(e.log));
      && first in nodes && (nodes[first].next != Null ==> nodes[first].next in nodes)
      && Lists(LinkAfter(nodes, first, p), order, runs')
      && Marked(info[p.block := e.(nfree := e.nfree + 1)], l.live, runs') && Counted(fragblocks, runs')
      && SizeAt(l, runs', p) == 0 && forall q :: q != p ==> SizeAt(l, runs', q) == SizeAt(l, runs, q)
  {
    var i := InUseBlock(info, l, nodes, order, runs, p);
    var r := runs[p.block];
    runs' := runs[p.block := Run(r.log, AfterFirst(r.offs, p.offset))];
    InsertLists(nodes, order, runs, r.log, i, p.offset);
    MarkedSet(info, l.live, runs, p.block, info[p.block].(nfree := info[p.block].nfree + 1), runs'[p.block]);
    CountedSame(fragblocks, runs, p.block, AfterFirst(r.offs, p.offset));
    MoreOffs(r.offs, AfterFirst(r.offs, p.offset), p.offset, r.log);
    OneFragment(l, runs, p.block, AfterFirst(r.offs, p.offset), p.offset);
    hide Lists, Marked, Counted, LinkAfter, AfterFirst, Boundary, Size;
  }

  /** "announce that it is the first free fragment of this block" */
  lemma {:induction false} AnnounceStep(info: Table, l: Layout, nodes: Nodes, fragblocks: seq<nat>, order: seq<seq<nat>>,
                                        runs: Runs, p: Ptr) returns (order': seq<seq<nat>>, runs': Runs)
    requires Lists(nodes, order, runs) && Marked(info, l.live, runs) && Counted(fragblocks, runs)
    requires SizeAt(l, runs, p) > 0 && p.At? && p.block in runs && p.block < |info| && info[p.block].Frag? && info[p.block].nfree == 0
    ensures var e := info[p.block];
      && Head(e.log) in nodes && (nodes[Head(e.log)].next != Null ==> nodes[Head(e.log)].next in nodes)
      && Lists(LinkAfter(nodes, Head(e.log), p), order', runs')
      && Marked(info[p.block := Frag(e.log, 1, NumberOf(e.log, p.offset))], l.live, runs') && Counted(fragblocks, runs')
      && SizeAt(l, runs', p) == 0 && forall q :: q != p ==> SizeAt(l, runs', q) == SizeAt(l, runs, q)
  {
    var i := InUseBlock(info, l, nodes, order, runs, p);
    var r := runs[p.block];
    assert r.offs == [] && [p.offset] + r.offs == [p.offset];
    runs', order' := runs[p.block := Run(r.log, [p.offset])], order[r.log := ToFrontOf(order[r.log], p.block)];
    PushLists(nodes, order, runs, r.log, p.block, p.offset);
    Index(r.log, p.offset);
    MarkedSet(info, l.live, runs, p.block, Frag(r.log, 1, NumberOf(r.log, p.offset)), runs'[p.block]);
    CountedSame(fragblocks, runs, p.block, [p.offset]);
    OneFragment(l, runs, p.block, [p.offset], p.offset);
    hide Lists, Marked, Counted, LinkAfter, Boundary, Size;
  }

  /** The cells of a block follow one another. */
  lemma {:induction false} NextInRun(nodes: Nodes, order: seq<seq<nat>>, runs: Runs, log: nat, i: nat, n: nat)
    requires Lists(nodes, order, runs) && MINLOG <= log < BLOCKLOG && |order| == BLOCKLOG && Has(runs, order[log])
    requires i < |order[log]| && 0 < n <= |runs[order[log][i]].offs|
    ensures var b := order[log][i]; var offs := runs[b].offs;
      At(b, offs[n - 1]) in nodes && (n < |offs| ==> nodes[At(b, offs[n - 1])].next == At(b, offs[n]))
  {
    ListsIs(nodes, order, runs, log);
    CutRun(nodes, order[log], runs, log, i, n);
  }

  /** "If all fragments of this block are free, remove them from the fragment
      list and free the whole block": all but the one being freed are in the
      list, so no other is in use. */
  lemma {:induction false} DropStep(info: Table, l: Layout, nodes: Nodes, fragblocks: seq<nat>, order: seq<seq<nat>>,
                                    runs: Runs, p: Ptr) returns (i: nat, order': seq<seq<nat>>, runs': Runs)
    requires Lists(nodes, order, runs) && Marked(info, l.live, runs) && Counted(fragblocks, runs) && Fragmented(l, runs)
    requires SizeAt(l, runs, p) > 0 && p.At? && p.block in runs && p.block < |info| && info[p.block].Frag?
    requires info[p.block].log <= BLOCKLOG && info[p.block].nfree == PerBlock(info[p.block].log) - 1
    requires info[p.block].log < |fragblocks| && fragblocks[info[p.block].log] > 1
    ensures var e := info[p.block]; var b := p.block;
      && MINLOG <= e.log < BLOCKLOG && |order| == BLOCKLOG && Has(runs, order[e.log])
      && i < |order[e.log]| && order[e.log][i] == b && e.nfree == |runs[b].offs| > 0
      && e.first * Size(e.log) == runs[b].offs[0]
    ensures var e := info[p.block]; var b := p.block;
      var first, last := At(b, runs[b].offs[0]), At(b, runs[b].offs[e.nfree - 1]);
      && first in nodes && last in nodes && nodes[first].prev in nodes
      && (nodes[last].next != Null ==> nodes[last].next in nodes)
      && Lists(CutOut(nodes, nodes[first].prev, nodes[last].next) - CellsOf(b, runs[b].offs), order', runs')
      && Marked(info[b := Busy(1)], l.live, runs') && Counted(fragblocks[e.log := fragblocks[e.log] - 1], runs')
      && b !in runs' && b in l.live && b in l.owned && l.owned[b] == 1
      && (forall q :: q != p && q != At(b, 0) ==> SizeAt(l, runs', q) == SizeAt(l, runs, q))
      && (p != At(b, 0) ==> SizeAt(l, runs, At(b, 0)) == 0 && SizeAt(l, runs', p) == 0)
  {
    i := InUseBlock(info, l, nodes, order, runs, p);
    var b := p.block;
    var r := runs[b];
    Fills(r.log);
    ListsIs(nodes, order, runs, r.log);
    runs', order' := runs - {b}, order[r.log := AfterCut(order[r.log], runs, i, |r.offs|)];
    CutLists(nodes, order, runs, runs', r.log, i, |r.offs|);
    assert r.offs[..|r.offs|] == r.offs;
    MarkedWhole(info, l.live, runs, b, 1);
    CountedLess(fragblocks, runs, b);
    OnlyInUse(r, p.offset);
    BlockWhole(l, runs, b, p.offset);
    hide Lists, Marked, Counted, CutOut, Boundary, Size, CellsFree, AllLists, AllSound, ListOk;
  }

  // ------------------------------------------------------- breaking up a block

  /** The offsets of fragments k, ..., 2, 1. */
  function Backwards(log: nat, k: nat): (r: seq<nat>)
    ensures |r| == k
  {
    if k == 0 then [] else [k * Size(log)] + Backwards(log, k - 1)
  }

  lemma {:induction false} BackwardsIn(log: nat, k: nat, i: nat)
    ensures i * Size(log) in Backwards(log, k) <==> 1 <= i <= k
  {
    hide Size;
    if k > 0 {
      BackwardsIn(log, k - 1, i);
      MulLess(i, k, Size(log));
      MulLess(k, i, Size(log));
    }
  }

  /** Fragment i lies within its block and is not among those before it. */
  lemma {:induction false} BreakPlace(log: nat, i: nat, off: nat)
    requires log <= BLOCKLOG && 1 <= i < PerBlock(log) && off == i * Size(log)
    ensures Boundary(log, off) && off !in Backwards(log, i - 1) && Backwards(log, i) == [off] + Backwards(log, i - 1)
  {
    IndexBack(log, i);
    BackwardsIn(log, i - 1, i);
  }

  /** Linking fragment i of the block being broken up. */
  lemma {:induction false} BreakStep(nodes: Nodes, order: seq<seq<nat>>, runs: Runs, log: nat, b: nat, i: nat, off: nat)
    returns (order': seq<seq<nat>>)
    requires Lists(nodes, order, runs) && MINLOG <= log < BLOCKLOG && 1 <= i < PerBlock(log) && off == i * Size(log)
    requires b in runs && runs[b] == Run(log, Backwards(log, i - 1))
    requires |order| == BLOCKLOG && (i > 1 ==> order[log] != [] && order[log][0] == b)
    ensures Head(log) in nodes && (nodes[Head(log)].next != Null ==> nodes[Head(log)].next in nodes)
    ensures Lists(LinkAfter(nodes, Head(log), At(b, off)), order', runs[b := Run(log, Backwards(log, i))])
    ensures |order'| == BLOCKLOG && order'[log] != [] && order'[log][0] == b
  {
    hide Lists, LinkAfter, Boundary, Size, Backwards, PerBlock;
    BreakPlace(log, i, off);
    PushLists(nodes, order, runs, log, b, off);
    order' := order[log := ToFrontOf(order[log], b)];
  }

  /** All but the first fragment of a broken block are free. */
  lemma {:induction false} AllButFirst(log: nat, o: nat)
    requires log <= BLOCKLOG && Boundary(log, o)
    ensures PerBlock(log) > 0 && (o in Backwards(log, PerBlock(log) - 1) <==> o != 0)
  {
    Fills(log);
    Index(log, o);
    BackwardsIn(log, PerBlock(log) - 1, o / Size(log));
  }

  lemma {:induction false} BrokenUp(info: Table, l: Layout, runs0: Runs, b: nat, log: nat)
    requires Marked(info, l.live, runs0) && b !in runs0 && b in l.live && b < |info| && MINLOG <= log < BLOCKLOG
    ensures PerBlock(log) > 1
    ensures var n := PerBlock(log); var runs := runs0[b := Run(log, Backwards(log, n - 1))];
      && Marked(info[b := Frag(log, n - 1, n - 1)], l.live, runs)
      && SizeAt(l, runs, At(b, 0)) == Size(log) && forall q :: q != At(b, 0) ==> SizeAt(l, runs, q) == SizeAt(l, runs0, q)
  {
    Fills(log);
    var n := PerBlock(log);
    var r := Run(log, Backwards(log, n - 1));
    assert r.offs[0] == (n - 1) * Size(log);
    MarkedSet(info, l.live, runs0, b, Frag(log, n - 1, n - 1), r);
    forall o | Boundary(log, o) ensures o in r.offs <==> o != 0 {
      AllButFirst(log, o);
    }
    BlockBroken(l, runs0, b, r);
    hide Marked, Boundary, Size, Backwards, PerBlock;
  }

  // ---------------------------------------------------------- whole clusters

  /** What the cluster level's success means for the regions. */
  lemma {:induction false} ClusterTaken(info0: Table, l0: Layout, brk0: nat, mem0: seq<Page>,
                                        info1: Table, l1: Layout, brk1: nat, mem1: seq<Page>, runs: Runs, r: nat, n: nat)
    requires LiveFit(info0, l0, brk0, mem0) && LiveFit(info1, l1, brk1, mem1)
    requires Marked(info0, l0.live, runs) && AllSound(runs)
    requires r !in l0.live && l1.live == l0.live + {r} && r in l1.owned && l1.owned[r] == n
    requires r < |info1| && info1[r] == Busy(n) && LiveSame(info0, info1, l0.live)
    requires forall a :: a in l0.live ==> a in l0.owned && a in l1.owned && l1.owned[a] == l0.owned[a]
    requires |mem1| == |mem0| && mem1[..brk0] == mem0[..brk0]
    ensures Marked(info1, l1.live, runs) && r !in runs && r > 0
    ensures Swapped(l0, runs, l1, runs, Null, At(r, 0)) && Undamaged(l0, runs, mem0, l1, runs, mem1, Null)
    ensures SizeAt(l0, runs, At(r, 0)) == 0 && SizeAt(l1, runs, At(r, 0)) == n * BLOCKSIZE
  {
    MarkedKept(info0, info1, l0.live, l1.live, runs);
    OneCluster(l0, l1, runs, r);
    forall q ensures CopyOf(mem0, q, mem1, q, SizeAt(l0, runs, q)) {
      ContentsKept(l0, runs, mem0, mem1, brk0, q);
    }
    hide CopyOf, Boundary, Size, Sound;
  }

  /** What freeing a cluster means for the regions. */
  lemma {:induction false} ClusterFreed(info0: Table, l0: Layout, info1: Table, l1: Layout, brk1: nat, mem: seq<Page>, runs: Runs, b: nat)
    requires LiveFit(info1, l1, brk1, mem) && Marked(info0, l0.live, runs) && b !in runs
    requires l1.live == l0.live - {b} && l1.owned == l0.owned - {b} && LiveSame(info0, info1, l1.live)
    requires forall a :: a in l0.live ==> a in l0.owned
    ensures Marked(info1, l1.live, runs) && SizeAt(l1, runs, At(b, 0)) == 0
    ensures forall q :: q != At(b, 0) ==> SizeAt(l1, runs, q) == SizeAt(l0, runs, q)
  {
    MarkedKept(info0, info1, l0.live, l1.live, runs);
    OneCluster(l0, l1, runs, b);
    hide Boundary, Size;
  }

  lemma {:induction false} CopySame(l0: Layout, runs0: Runs, l1: Layout, runs1: Runs, mem: seq<Page>, p: Ptr)
    requires forall q :: q != p && SizeAt(l0, runs0, q) > 0 ==> SizeAt(l1, runs1, q) == SizeAt(l0, runs0, q)
    ensures Undamaged(l0, runs0, mem, l1, runs1, mem, p)
  {
    hide SizeAt;
  }

  lemma {:induction false} FragmentUse(info: Table, l: Layout, brk: nat, mem: seq<Page>, b: nat)
    requires LiveFit(info, l, brk, mem) && b in l.live && b < |info| && info[b].Frag?
    ensures b in l.owned && l.owned[b] == 1
  {
  }

  lemma {:induction false} NowSwapped(l0: Layout, runs0: Runs, l1: Layout, runs1: Runs, p: Ptr, r: Ptr)
    requires r != Null ==> r == p || SizeAt(l0, runs0, r) == 0
    requires p != r && p != Null ==> SizeAt(l1, runs1, p) == 0
    requires forall q :: q != p && q != r ==> SizeAt(l1, runs1, q) == SizeAt(l0, runs0, q)
    ensures Swapped(l0, runs0, l1, runs1, p, r)
  {
    hide Boundary, Size;
  }

  /** The list cells inside a block. */
  function CellsIn(nodes: Nodes, block: nat): set<Ptr> {
    set q | q in nodes && q.At? && q.block == block
  }

  lemma {:induction false} CellsInIs(nodes: Nodes, order: seq<seq<nat>>, runs: Runs, b: nat)
    requires Lists(nodes, order, runs) && b in runs
    ensures CellsIn(nodes, b) == CellsOf(b, runs[b].offs)
  {
    forall q ensures q in CellsIn(nodes, b) <==> q in CellsOf(b, runs[b].offs) {
      assert q in nodes <==> Cell(runs, q);
    }
  }

  lemma {:induction false} HasAt(runs: Runs, order: seq<nat>, i: nat)
    requires Has(runs, order) && i < |order|
    ensures order[i] in runs
  {
  }

  lemma {:induction false} FragmentLog(e: Info, runs: Runs, b: nat)
    requires b in runs && Entry(e, runs[b]) && Sound(runs[b])
    ensures e.Frag? && MINLOG <= e.log < BLOCKLOG
  {
  }

  lemma {:induction false} WholeBlock(info: Table, l: Layout, brk: nat, mem: seq<Page>, runs: Runs, b: nat)
    requires LiveFit(info, l, brk, mem) && Marked(info, l.live, runs) && b in l.live && b < |info| && !info[b].Frag?
    ensures info[b].Busy? && b !in runs
  {
  }

  lemma {:induction false} AfterSwap(l0: Layout, runs0: Runs, l1: Layout, runs1: Runs, mem: seq<Page>, p: Ptr)
    requires Swapped(l0, runs0, l1, runs1, p, Null)
    ensures Undamaged(l0, runs0, mem, l1, runs1, mem, p)
  {
    hide SizeAt;
    assert SizeAt(l0, runs0, Null) == 0 by { NullUnused(l0, runs0); }
  }

  lemma {:induction false} NullUnused(l: Layout, runs: Runs)
    ensures SizeAt(l, runs, Null) == 0
  {
  }

  /** After an allocation, p is in use as before. */
  lemma {:induction false} StillInUse(l0: Layout, runs0: Runs, mem0: seq<Page>, l1: Layout, runs1: Runs, mem1: seq<Page>, p: Ptr, r: Ptr)
    requires Swapped(l0, runs0, l1, runs1, Null, r) && Undamaged(l0, runs0, mem0, l1, runs1, mem1, Null)
    requires SizeAt(l0, runs0, p) > 0 && p != Null && r != Null
    ensures p != r && SizeAt(l1, runs1, p) == SizeAt(l0, runs0, p) && CopyOf(mem0, p, mem1, p, SizeAt(l0, runs0, p))
  {
    hide SizeAt, CopyOf;
  }

  lemma {:induction false} CopyFits(info: Table, l: Layout, brk: nat, mem: seq<Page>, runs: Runs, q: Ptr, n: nat)
    requires LiveFit(info, l, brk, mem) && Fragmented(l, runs) && n <= SizeAt(l, runs, q) && n <= BLOCKSIZE / 2 && SizeAt(l, runs, q) > 0
    ensures q.At? && q.block < |mem| && q.offset + n <= 4096
  {
    RegionFits(l, runs, q, brk, 0);
    if n > 0 { RegionFits(l, runs, q, brk, n - 1); }
  }

  lemma {:induction false} CopyOthers(info: Table, l: Layout, brk: nat, mem0: seq<Page>, mem1: seq<Page>, runs: Runs, r: Ptr, n: nat)
    requires LiveFit(info, l, brk, mem0) && Fragmented(l, runs) && n <= SizeAt(l, runs, r) && n <= 4096 && r.At?
    requires r.block < |mem0| == |mem1| && r.offset + n <= 4096
    requires mem1[r.block][..r.offset] == mem0[r.block][..r.offset]
    requires mem1[r.block][r.offset + n..] == mem0[r.block][r.offset + n..]
    requires forall b :: 0 <= b < |mem0| && b != r.block ==> mem1[b] == mem0[b]
    ensures forall q :: q != r ==> CopyOf(mem0, q, mem1, q, SizeAt(l, runs, q))
  {
    forall q | q != r ensures CopyOf(mem0, q, mem1, q, SizeAt(l, runs, q)) {
      CopySafe(l, runs, mem0, mem1, r, n, q);
    }
  }

  lemma {:induction false} Relocated(l0: Layout, runs0: Runs, mem0: seq<Page>, l1: Layout, runs1: Runs, mem1: seq<Page>,
                                     mem2: seq<Page>, l2: Layout, runs2: Runs, p: Ptr, r: Ptr, n: nat)
    requires Swapped(l0, runs0, l1, runs1, Null, r) && Undamaged(l0, runs0, mem0, l1, runs1, mem1, Null)
    requires forall q :: q != r ==> CopyOf(mem1, q, mem2, q, SizeAt(l1, runs1, q))
    requires Swapped(l1, runs1, l2, runs2, p, Null)
    requires p != Null && r != Null && p != r && n <= SizeAt(l0, runs0, p) && SizeAt(l0, runs0, p) > 0
    requires CopyOf(mem1, p, mem2, r, n)
    ensures Swapped(l0, runs0, l2, runs2, p, r) && Undamaged(l0, runs0, mem0, l2, runs2, mem2, p)
    ensures CopyOf(mem0, p, mem2, r, n) && SizeAt(l2, runs2, r) == SizeAt(l1, runs1, r)
  {
    hide SizeAt, CopyOf;
    StillInUse(l0, runs0, mem0, l1, runs1, mem1, p, r);
    NullUnused(l0, runs0);
    NullUnused(l1, runs1);
    NullUnused(l2, runs2);
    CopyPart(mem0, p, mem1, p, SizeAt(l0, runs0, p), n);
    CopyTwice(mem0, p, mem1, p, mem2, r, n);
    forall q | q != p && SizeAt(l0, runs0, q) > 0
      ensures SizeAt(l2, runs2, q) == SizeAt(l0, runs0, q) && CopyOf(mem0, q, mem2, q, SizeAt(l0, runs0, q))
    {
      assert q != r && q != Null;
      CopyTwice(mem0, q, mem1, q, mem2, q, SizeAt(l0, runs0, q));
    }
  }

  lemma {:induction false} CopyPart(mem0: seq<Page>, p: Ptr, mem1: seq<Page>, q: Ptr, n: nat, m: nat)
    requires CopyOf(mem0, p, mem1, q, n) && m <= n
    ensures CopyOf(mem0, p, mem1, q, m)
  {
  }

  lemma {:induction false} CopyTwice(mem0: seq<Page>, p: Ptr, mem1: seq<Page>, q: Ptr, mem2: seq<Page>, r: Ptr, n: nat)
    requires CopyOf(mem0, p, mem1, q, n) && CopyOf(mem1, q, mem2, r, n)
    ensures CopyOf(mem0, p, mem2, r, n)
  {
  }

  lemma {:induction false} BusyWhole(info: Table, l: Layout, brk: nat, mem: seq<Page>, runs: Runs, p: Ptr)
    requires LiveFit(info, l, brk, mem) && Marked(info, l.live, runs) && SizeAt(l, runs, p) > 0
    requires p.At? && p.block < |info| && info[p.block].Busy?
    ensures p.block !in runs && p.offset == 0 && p.block in l.live && p.block in l.owned && info[p.block] == Busy(l.owned[p.block])
    ensures SizeAt(l, runs, p) == l.owned[p.block] * BLOCKSIZE && l.owned[p.block] > 0
  {
    hide Boundary, Size;
    assert p.block in runs ==> Entry(info[p.block], runs[p.block]);
  }

  lemma {:induction false} SameLayout(info0: Table, info1: Table, l: Layout, brk: nat, mem: seq<Page>, runs: Runs)
    requires Marked(info0, l.live, runs) && LiveSame(info0, info1, l.live) && LiveFit(info1, l, brk, mem)
    ensures Marked(info1, l.live, runs)
  {
    MarkedKept(info0, info1, l.live, l.live, runs);
  }

  lemma {:induction false} MovedRefl(info: Table, l: Layout, brk: nat, mem: seq<Page>, b: nat, n: nat)
    requires LiveFit(info, l, brk, mem) && b in l.live && b in l.owned && n <= l.owned[b]
    ensures Moved(mem, mem, b, b, n) && LiveSame(info, info, l.live - {b})
  {
  }

  /** A cluster cut short, or left alone, has not moved. */
  lemma {:induction false} SameLive(l0: Layout, info0: Table, brk0: nat, mem: seq<Page>, info1: Table, l1: Layout, b: nat)
    requires LiveFit(info0, l0, brk0, mem) && b in l0.live && l1.live == l0.live
    requires b in l1.owned && l1.owned == l0.owned[b := l1.owned[b]]
    requires LiveSame(info0, info1, l0.live - {b})
    ensures l1.live == l0.live - {b} + {b} && Undisturbed(l0, l1, mem, mem, l0.live - {b})
  {
  }

  /** What resizing a cluster means for the regions. */
  lemma {:induction false} ClusterResized(info0: Table, l0: Layout, brk0: nat, mem0: seq<Page>, info1: Table, l1: Layout, brk1: nat,
                                    mem1: seq<Page>, runs: Runs, b: nat, r: nat, cur: nat, blocks: nat)
    requires LiveFit(info0, l0, brk0, mem0) && LiveFit(info1, l1, brk1, mem1) && Marked(info0, l0.live, runs) && AllSound(runs)
    requires b in l0.live && b in l0.owned && l0.owned[b] == cur && b !in runs && r !in l0.live - {b}
    requires l1.live == l0.live - {b} + {r} && r in l1.owned && l1.owned[r] == blocks && r < |info1| && info1[r] == Busy(blocks)
    requires Moved(mem0, mem1, b, r, if cur < blocks then cur else blocks)
    requires Undisturbed(l0, l1, mem0, mem1, l0.live - {b}) && LiveSame(info0, info1, l0.live - {b})
    ensures Marked(info1, l1.live, runs) && SizeAt(l1, runs, At(r, 0)) == blocks * BLOCKSIZE
    ensures Swapped(l0, runs, l1, runs, At(b, 0), At(r, 0)) && Undamaged(l0, runs, mem0, l1, runs, mem1, At(b, 0))
    ensures CopyOf(mem0, At(b, 0), mem1, At(r, 0), if cur * BLOCKSIZE < blocks * BLOCKSIZE then cur * BLOCKSIZE else blocks * BLOCKSIZE)
  {
    ResizedTable(info0, l0.live, info1, l1, brk1, mem1, runs, b, r, blocks);
    BlocksCopied(mem0, mem1, b, r, if cur < blocks then cur else blocks);
    ResizedRegions(info0, l0, brk0, mem0, l1, runs, b, r);
    forall q | q != At(b, 0) && SizeAt(l0, runs, q) > 0 ensures CopyOf(mem0, q, mem1, q, SizeAt(l0, runs, q)) {
      OtherContents(info0, l0, brk0, mem0, l1, mem1, runs, b, q);
    }
    NowSwapped(l0, runs, l1, runs, At(b, 0), At(r, 0));
    hide SizeAt, CopyOf, Marked, LiveFit, Undisturbed, LiveSame, Moved;
  }

  lemma {:induction false} ResizedTable(info0: Table, live0: set<nat>, info1: Table, l1: Layout, brk1: nat, mem1: seq<Page>,
                                        runs: Runs, b: nat, r: nat, blocks: nat)
    requires LiveFit(info1, l1, brk1, mem1) && Marked(info0, live0, runs) && b !in runs && r !in live0 - {b}
    requires l1.live == live0 - {b} + {r} && r < |info1| && info1[r] == Busy(blocks) && LiveSame(info0, info1, live0 - {b})
    ensures Marked(info1, l1.live, runs) && r !in runs
  {
  }

  lemma {:induction false} ResizedRegions(info0: Table, l0: Layout, brk0: nat, mem0: seq<Page>, l1: Layout, runs: Runs, b: nat, r: nat)
    requires LiveFit(info0, l0, brk0, mem0) && b !in runs && r !in runs && b in l0.live && r !in l0.live - {b}
    requires l1.live == l0.live - {b} + {r} && r in l1.owned
    requires forall a :: a in l0.live - {b} ==> a in l1.owned && l1.owned[a] == l0.owned[a]
    ensures SizeAt(l1, runs, At(r, 0)) == l1.owned[r] * BLOCKSIZE
    ensures r != b ==> SizeAt(l0, runs, At(r, 0)) == 0 && SizeAt(l1, runs, At(b, 0)) == 0
    ensures forall q :: q != At(b, 0) && q != At(r, 0) ==> SizeAt(l1, runs, q) == SizeAt(l0, runs, q)
  {
    hide Boundary, Size;
  }

  /** Other regions keep their bytes because their blocks are undisturbed. */
  lemma {:induction false} OtherContents(info0: Table, l0: Layout, brk0: nat, mem0: seq<Page>, l1: Layout, mem1: seq<Page>,
                                         runs: Runs, b: nat, q: Ptr)
    requires LiveFit(info0, l0, brk0, mem0) && Marked(info0, l0.live, runs) && AllSound(runs)
    requires Undisturbed(l0, l1, mem0, mem1, l0.live - {b}) && q != At(b, 0) && b !in runs
    ensures CopyOf(mem0, q, mem1, q, SizeAt(l0, runs, q))
  {
    FragmentsLive(info0, l0, brk0, mem0, runs);
    forall j | 0 <= j < SizeAt(l0, runs, q) ensures ByteAt(mem1, q, j) == ByteAt(mem0, q, j) {
      BlockOf(l0, runs, q, j);
      var k := (q.offset + j) / BLOCKSIZE;
      var n := l0.owned[q.block];
      assert q.block in l0.live - {b};
      assert mem1[q.block + k] == mem1[q.block..q.block + n][k] && mem0[q.block + k] == mem0[q.block..q.block + n][k];
    }
  }

  /** What a fragment in use holds. */
  lemma {:induction false} FragmentHolds(e: Info, l: Layout, runs: Runs, p: Ptr)
    requires p.At? && p.block in runs && Entry(e, runs[p.block]) && Sound(runs[p.block]) && SizeAt(l, runs, p) > 0
    ensures e.Frag? && 1 <= MINLOG <= e.log < BLOCKLOG && SizeAt(l, runs, p) == Size(e.log) && Size(e.log) <= BLOCKSIZE / 2
  {
    SizeOrder(e.log, 11);
    Pow2Values();
    Pow2Add(8, 3);
  }

  lemma {:induction false} CopyRefl(mem: seq<Page>, p: Ptr, n: nat)
    ensures CopyOf(mem, p, mem, p, n)
  {
  }

  lemma {:induction false} PageAtLeast(l: Layout, b: nat)
    requires b in l.owned && l.owned[b] > 0
    ensures BLOCKSIZE / 2 < l.owned[b] * BLOCKSIZE
  {
  }

  lemma {:induction false} BlockifyIs(size: nat)
    requires size > 0
    ensures Blockify(size) > 0 && size <= Blockify(size) * BLOCKSIZE
  {
  }

  lemma {:induction false} ClusterEntry(info: Table, l: Layout, brk: nat, mem: seq<Page>, b: nat)
    requires LiveFit(info, l, brk, mem) && b in l.live && b < |info| && info[b].Busy?
    ensures b in l.owned && info[b] == Busy(l.owned[b])
  {
  }

  lemma {:induction false} LiveOwned(info: Table, l: Layout, brk: nat, mem: seq<Page>)
    requires LiveFit(info, l, brk, mem)
    ensures forall a :: a in l.live ==> a in l.owned && a < |info|
  {
  }

  lemma {:induction false} TwelveLists(nodes: Nodes, order: seq<seq<nat>>, runs: Runs)
    requires Lists(nodes, order, runs)
    ensures |order| == BLOCKLOG
  {
  }

  lemma {:induction false} NoneYet(log: nat)
    ensures Backwards(log, 0) == []
  {
  }

  lemma {:induction false} CountedRun(fragblocks: seq<nat>, runs: Runs, b: nat, log: nat, offs: seq<nat>)
    requires Counted(fragblocks, runs[b := Run(log, [])])
    ensures Counted(fragblocks, runs[b := Run(log, offs)])
  {
    CountedSame(fragblocks, runs[b := Run(log, [])], b, offs);
    assert runs[b := Run(log, [])][b := Run(log, offs)] == runs[b := Run(log, offs)];
  }

  /** A cluster taken and then broken up. */
  lemma {:induction false} ViaSwapped(l0: Layout, runs0: Runs, mem0: seq<Page>, l1: Layout, runs1: Runs, mem1: seq<Page>, r: Ptr)
    requires Swapped(l0, runs0, l1, runs0, Null, r) && Undamaged(l0, runs0, mem0, l1, runs0, mem1, Null) && r != Null
    requires forall q :: q != r ==> SizeAt(l1, runs1, q) == SizeAt(l1, runs0, q)
    ensures Swapped(l0, runs0, l1, runs1, Null, r) && Undamaged(l0, runs0, mem0, l1, runs1, mem1, Null)
  {
    hide Boundary, Size, CopyOf;
  }

  /** The allocator's globals. */
  class Allocator {
    const heap: Clusters
    var nodes: Nodes
    var fragblocks: seq<nat>
    ghost var order: seq<seq<nat>>
    ghost var runs: Runs

    /** Every list holds exactly the free fragments of its size, those of one
        block together, starting at its first, nfree of them. */
    ghost predicate Valid()
      reads this, heap
    {
      && heap.Valid() && Lists(nodes, order, runs)
      && Marked(heap.info, heap.lay.live, runs) && Counted(fragblocks, runs)
    }

    ghost function InUse(q: Ptr): nat
      reads this, heap
    {
      SizeAt(heap.lay, runs, q)
    }

    lemma {:induction false} ValidIs()
      requires Valid()
      ensures heap.Valid() && Lists(nodes, order, runs) && AllSound(runs) && |order| == BLOCKLOG
      ensures Marked(heap.info, heap.lay.live, runs) && Counted(fragblocks, runs) && |fragblocks| == BLOCKLOG
    {
    }

    lemma {:induction false} NowValid()
      requires heap.Valid() && Lists(nodes, order, runs)
      requires Marked(heap.info, heap.lay.live, runs) && Counted(fragblocks, runs)
      ensures Valid()
    {
    }

    lemma {:induction false} InUseIs(q: Ptr)
      ensures InUse(q) == SizeAt(heap.lay, runs, q)
    {
    }

    /** There is no room for so many bytes: no fragment of the size and no block to break
        up, or not so many blocks. */
    ghost predicate Fails(request: nat)
      reads this, heap
    {
      request == 0
      || if request <= BLOCKSIZE / 2 then NoFragment(runs, LogFrom(request, MINLOG)) && heap.Exhausted(1)
         else heap.Exhausted(Blockify(request))
    }

    lemma {:induction false} FailsIs(request: nat)
      ensures request == 0 ==> Fails(request)
      ensures 0 < request <= BLOCKSIZE / 2 ==>
        (Fails(request) <==> NoFragment(runs, LogFrom(request, MINLOG)) && heap.Exhausted(1))
      ensures request > BLOCKSIZE / 2 ==>
        (Fails(request) <==> heap.Exhausted(Blockify(request))) && RegionSize(request) == Blockify(request) * BLOCKSIZE
    {
      hide NoFragment, Blockify;
    }

    /** No other fragment of p's block is in use, and there is another block of fragments
        of the size. */
    ghost predicate LastOfBlock(p: Ptr)
      reads this, heap
    {
      && p.At? && p.block in runs
      && (forall q: Ptr :: q.At? && q.block == p.block && q != p ==> InUse(q) == 0)
      && exists b :: b in runs && b != p.block && runs[b].log == runs[p.block].log
    }

    /** What free compares to find out. */
    lemma {:induction false} LastOfBlockIff(p: Ptr)
      requires Valid() && p.At? && InUse(p) > 0 && p.block in runs
      ensures p.block < |heap.info| && heap.info[p.block].Frag? && heap.info[p.block].log < |fragblocks|
      ensures var e := heap.info[p.block];
        e.log <= BLOCKLOG && (LastOfBlock(p) <==> e.nfree == PerBlock(e.log) - 1 && fragblocks[e.log] > 1)
    {
      hide *;
      ValidIs();
      InUseIs(p);
      ghost var i := InUseBlock(heap.info, heap.lay, nodes, order, runs, p);
      var e, r := heap.info[p.block], runs[p.block];
      FragmentLog(e, runs, p.block);
      OnlyInUse(r, p.offset);
      OthersFree(p);
      OtherBlock(fragblocks, runs, p.block);
      LastOfBlockIs(p);
    }

    lemma {:induction false} LastOfBlockIs(p: Ptr)
      ensures LastOfBlock(p) <==>
        && p.At? && p.block in runs && (forall q: Ptr :: q.At? && q.block == p.block && q != p ==> InUse(q) == 0)
        && exists b :: b in runs && b != p.block && runs[b].log == runs[p.block].log
    {
      hide InUse;
    }

    lemma {:induction false} OthersFree(p: Ptr)
      requires p.At? && p.block in runs && Boundary(runs[p.block].log, p.offset)
      ensures (forall o :: Boundary(runs[p.block].log, o) && o != p.offset ==> o in runs[p.block].offs)
        <==> forall q: Ptr :: q.At? && q.block == p.block && q != p ==> InUse(q) == 0
    {
      hide Boundary, Size;
      if forall q: Ptr :: q.At? && q.block == p.block && q != p ==> InUse(q) == 0 {
        forall o | Boundary(runs[p.block].log, o) && o != p.offset ensures o in runs[p.block].offs {
          assert InUse(At(p.block, o)) == 0;
        }
      }
    }

    constructor (capacity: nat)
      requires capacity >= 4
      ensures Valid() && fresh(heap) && forall q :: InUse(q) == 0
    {
      heap := new Clusters(capacity);
      nodes := map log: nat | log < BLOCKLOG :: Head(log) := Node(Null, Null);
      fragblocks := seq(BLOCKLOG, _ => 0);
      order := seq(BLOCKLOG, _ => []);
      runs := map[];
      new;
      forall log | MINLOG <= log < BLOCKLOG ensures ListOk(nodes, order[log], runs, log) {
        NoChain(log, runs);
      }
      forall log | 0 <= log < BLOCKLOG ensures fragblocks[log] == |Blocks(runs, log)| {
        assert Blocks(runs, log) == {};
      }
    }

    /** "Pop a fragment out of the fragment list and return it." */
    method TakeFragment(log: nat) returns (r: Ptr)
      requires Valid() && MINLOG <= log < BLOCKLOG && Head(log) in nodes && nodes[Head(log)].next != Null
      modifies `nodes, `order, `runs, heap`info
      ensures Valid() && r.At? && InUse(r) == Size(log) && heap.lay == old(heap.lay)
      ensures Swapped(old(heap.lay), old(runs), heap.lay, runs, Null, r)
      ensures Undamaged(old(heap.lay), old(runs), heap.mem, heap.lay, runs, heap.mem, Null)
    {
      hide *;
      ValidIs();
      heap.LiveFacts();
      ghost var order0, runs0 := order, runs;
      order, runs := PopStep(heap.info, heap.lay, nodes, fragblocks, order, runs, log);
      r := nodes[Head(log)].next;
      var block, next := r.block, nodes[r].next;
      nodes := CutOut(nodes, nodes[r].prev, next) - {r};
      FragmentUse(heap.info, heap.lay, heap.brk, heap.mem, block);
      heap.SetUse(block, AfterPop(heap.info[block], next));
      NowValid();
      InUseIs(r);
      NowSwapped(heap.lay, runs0, heap.lay, runs, Null, r);
      CopySame(heap.lay, runs0, heap.lay, runs, heap.mem, Null);
    }

    /** "Link all fragments but the first into the free list." */
    method LinkRest(log: nat, block: nat, ghost runs0: Runs) returns (i: nat)
      requires Lists(nodes, order, runs) && MINLOG <= log < BLOCKLOG && runs == runs0[block := Run(log, [])]
      modifies `nodes, `order, `runs
      ensures i == PerBlock(log) && i > 0 && Lists(nodes, order, runs)
      ensures runs == runs0[block := Run(log, Backwards(log, i - 1))]
    {
      hide *;
      NoneYet(log);
      Fills(log);
      TwelveLists(nodes, order, runs);
      i := 1;
      while i < PerBlock(log)
        invariant 1 <= i <= PerBlock(log) && |order| == BLOCKLOG
        invariant Lists(nodes, order, runs) && runs == runs0[block := Run(log, Backwards(log, i - 1))]
        invariant i > 1 ==> order[log] != [] && order[log][0] == block
      {
        var next := At(block, i * Size(log));
        order := BreakStep(nodes, order, runs, log, block, i, i * Size(log));
        nodes := LinkAfter(nodes, Head(log), next);
        runs := runs[block := Run(log, Backwards(log, i))];
        i := i + 1;
      }
    }

    /** "get a new block and break it into fragments, returning the first" */
    method BreakBlock(log: nat) returns (r: Ptr)
      requires Valid() && MINLOG <= log < BLOCKLOG
      modifies this, heap
      ensures Valid() && (r != Null ==> r.At? && InUse(r) == Size(log))
      ensures r == Null <==> old(heap.Exhausted(1))
      ensures r == Null ==> nodes == old(nodes) && runs == old(runs) && heap.info == old(heap.info) && heap.lay == old(heap.lay)
      ensures r == Null ==> heap.brk == old(heap.brk) && heap.heaplimit == old(heap.heaplimit) && heap.mem == old(heap.mem)
      ensures Swapped(old(heap.lay), old(runs), heap.lay, runs, Null, r)
      ensures Undamaged(old(heap.lay), old(runs), old(heap.mem), heap.lay, runs, heap.mem, Null)
    {
      hide *;
      ValidIs();
      heap.LiveFacts();
      ghost var l0, info0, mem0, brk0, runs0 := heap.lay, heap.info, heap.mem, heap.brk, runs;
      var block := heap.MallocBlocks(1);
      heap.LiveFacts();
      if block == 0 {
        NowValid();
        NowSwapped(l0, runs, heap.lay, runs, Null, Null);
        CopySame(l0, runs, heap.lay, runs, heap.mem, Null);
        return Null;
      }
      ghost var l1 := heap.lay;
      ClusterTaken(info0, l0, brk0, mem0, heap.info, l1, heap.brk, heap.mem, runs, block, 1);
      FreshRun(nodes, order, runs, log, block);
      CountedMore(fragblocks, runs, block, [], log);
      fragblocks := fragblocks[log := fragblocks[log] + 1];
      runs := runs[block := Run(log, [])];
      var i := LinkRest(log, block, runs0);
      BrokenUp(heap.info, l1, runs0, block, log);
      heap.SetUse(block, Frag(log, i - 1, i - 1));
      CountedRun(fragblocks, runs0, block, log, Backwards(log, i - 1));
      NowValid();
      r := At(block, 0);
      InUseIs(r);
      ViaSwapped(l0, runs0, mem0, l1, runs, heap.mem, r);
    }

    /** A large request. */
    method TakeClusters(blocks: nat) returns (r: Ptr)
      requires Valid() && blocks > 0
      modifies heap
      ensures Valid() && (r != Null ==> r.At? && InUse(r) == blocks * BLOCKSIZE)
      ensures r == Null <==> old(heap.Exhausted(blocks))
      ensures r == Null ==> heap.info == old(heap.info) && heap.lay == old(heap.lay)
      ensures r == Null ==> heap.brk == old(heap.brk) && heap.heaplimit == old(heap.heaplimit) && heap.mem == old(heap.mem)
      ensures Swapped(old(heap.lay), runs, heap.lay, runs, Null, r)
      ensures Undamaged(old(heap.lay), runs, old(heap.mem), heap.lay, runs, heap.mem, Null)
    {
      hide *;
      ValidIs();
      heap.LiveFacts();
      ghost var l0, info0, mem0, brk0 := heap.lay, heap.info, heap.mem, heap.brk;
      var block := heap.MallocBlocks(blocks);
      heap.LiveFacts();
      if block == 0 {
        r := Null;
        NowSwapped(l0, runs, heap.lay, runs, Null, Null);
        CopySame(l0, runs, heap.lay, runs, heap.mem, Null);
      } else {
        r := At(block, 0);
        ClusterTaken(info0, l0, brk0, mem0, heap.info, heap.lay, heap.brk, heap.mem, runs, block, blocks);
        InUseIs(r);
      }
      NowValid();
    }

    /** malloc: it fails exactly when there is no room, and changes nothing then.
        Otherwise one more region is in use, of the size asked for rounded up and
        apart from all others; these keep their place, size and contents. */
    method Malloc(request: nat) returns (r: Ptr)
      requires Valid()
      modifies this, heap
      ensures Valid() && (r != Null ==> r.At? && InUse(r) == RegionSize(request) >= request > 0)
      ensures r == Null <==> old(Fails(request))
      ensures r == Null ==> nodes == old(nodes) && runs == old(runs) && heap.info == old(heap.info) && heap.lay == old(heap.lay)
      ensures r == Null ==> heap.brk == old(heap.brk) && heap.heaplimit == old(heap.heaplimit) && heap.mem == old(heap.mem)
      ensures Swapped(old(heap.lay), old(runs), heap.lay, runs, Null, r)
      ensures Undamaged(old(heap.lay), old(runs), old(heap.mem), heap.lay, runs, heap.mem, Null)
    {
      hide *;
      ValidIs();
      FailsIs(request);
      HalfBlock();
      if request == 0 {
        NowSwapped(heap.lay, runs, heap.lay, runs, Null, Null);
        CopySame(heap.lay, runs, heap.lay, runs, heap.mem, Null);
        return Null;
      }
      var size := if request < 8 then 8 else request;
      if size <= BLOCKSIZE / 2 {
        var log := LogOf(size);
        LogFound(request, log);
        HeadOf(nodes, order, runs, log);
        NoFragmentIs(nodes, order, runs, log);
        if nodes[Head(log)].next != Null {
          r := TakeFragment(log);
        } else {
          r := BreakBlock(log);
        }
      } else {
        BlockifyIs(size);
        r := TakeClusters(Blockify(size));
      }
    }

    /** free of a whole cluster. */
    method FreeClusters(block: nat)
      requires heap.Valid() && Lists(nodes, order, runs) && Marked(heap.info, heap.lay.live, runs) && Counted(fragblocks, runs)
      requires block in heap.lay.live && block !in runs && block < |heap.info| && heap.info[block].Busy?
      modifies heap`info, heap`lay, heap`heaplimit, heap`brk, heap`heapindex
      ensures Valid() && SizeAt(heap.lay, runs, At(block, 0)) == 0
      ensures heap.lay.owned == old(heap.lay.owned) - {block} && heap.lay.live == old(heap.lay.live) - {block}
      ensures heap.brk == BreakAfter(old(heap.lay.owned) - {block}, old(heap.heaplimit), old(heap.brk), block)
      ensures forall q :: q != At(block, 0) ==> SizeAt(heap.lay, runs, q) == SizeAt(old(heap.lay), runs, q)
    {
      hide *;
      heap.LiveFacts();
      ClusterEntry(heap.info, heap.lay, heap.brk, heap.mem, block);
      heap.ValidIs();
      ghost var l0, info0 := heap.lay, heap.info;
      LiveOwned(heap.info, heap.lay, heap.brk, heap.mem);
      ghost var gave := heap.FreeCluster(block, heap.heaplimit);
      heap.ValidIs();
      heap.LiveFacts();
      ClusterFreed(info0, l0, heap.info, heap.lay, heap.brk, heap.mem, runs, block);
      NowValid();
    }

    /** Step over the n free fragments of block, from the first on. */
    method WalkRun(log: nat, ghost i: nat, first: Ptr, n: nat) returns (next: Ptr)
      requires Lists(nodes, order, runs) && MINLOG <= log < BLOCKLOG && |order| == BLOCKLOG && Has(runs, order[log])
      requires i < |order[log]| && 0 < n == |runs[order[log][i]].offs|
      requires first == At(order[log][i], runs[order[log][i]].offs[0])
      ensures var last := At(order[log][i], runs[order[log][i]].offs[n - 1]); last in nodes && next == nodes[last].next
    {
      hide *;
      HasAt(runs, order[log], i);
      ghost var b, offs := order[log][i], runs[order[log][i]].offs;
      NextInRun(nodes, order, runs, log, i, 1);
      next := nodes[first].next;
      var k := 1;
      while k < n
        invariant 1 <= k <= n && At(b, offs[k - 1]) in nodes && next == nodes[At(b, offs[k - 1])].next
      {
        NextInRun(nodes, order, runs, log, i, k);
        NextInRun(nodes, order, runs, log, i, k + 1);
        next := nodes[next].next;
        k := k + 1;
      }
    }

    /** "If all fragments of this block are free, remove them from the fragment
        list and free the whole block." */
    method FreeBlock(p: Ptr)
      requires Valid() && InUse(p) > 0 && p.At? && p.block < |heap.info| && heap.info[p.block].Frag?
      requires heap.info[p.block].log <= BLOCKLOG && heap.info[p.block].log < |fragblocks|
      requires heap.info[p.block].nfree == PerBlock(heap.info[p.block].log) - 1 && fragblocks[heap.info[p.block].log] > 1
      modifies `nodes, `fragblocks, `order, `runs, heap`info, heap`lay, heap`heaplimit, heap`brk, heap`heapindex
      ensures Valid() && Swapped(old(heap.lay), old(runs), heap.lay, runs, p, Null)
      ensures heap.lay.owned == old(heap.lay.owned) - {p.block} && heap.lay.live == old(heap.lay.live) - {p.block}
      ensures heap.brk == BreakAfter(old(heap.lay.owned) - {p.block}, old(heap.heaplimit), old(heap.brk), p.block)
    {
      hide *;
      ValidIs();
      InUseIs(p);
      heap.LiveFacts();
      FragmentsLive(heap.info, heap.lay, heap.brk, heap.mem, runs);
      ghost var i0 := InUseBlock(heap.info, heap.lay, nodes, order, runs, p);
      var block, e := p.block, heap.info[p.block];
      ghost var l0, runs0 := heap.lay, runs;
      ghost var i, order', runs' := DropStep(heap.info, heap.lay, nodes, fragblocks, order, runs, p);
      var first := At(block, e.first * Size(e.log));
      var next := WalkRun(e.log, i, first, e.nfree);
      CellsInIs(nodes, order, runs, block);
      fragblocks := fragblocks[e.log := fragblocks[e.log] - 1];
      nodes := CutOut(nodes, nodes[first].prev, next) - CellsIn(nodes, block);
      order, runs := order', runs';
      heap.SetUse(block, Busy(1));
      FreeClusters(block);
      NowSwapped(l0, runs0, heap.lay, runs, p, Null);
    }

    /** Put one fragment of a block that stays fragmented on its list. */
    method FreeFragment(p: Ptr)
      requires Valid() && InUse(p) > 0 && p.At? && p.block < |heap.info| && heap.info[p.block].Frag?
      modifies `nodes, `order, `runs, heap`info
      ensures Valid() && heap.lay == old(heap.lay)
      ensures Swapped(old(heap.lay), old(runs), heap.lay, runs, p, Null)
    {
      hide *;
      ValidIs();
      InUseIs(p);
      heap.LiveFacts();
      ghost var i0 := InUseBlock(heap.info, heap.lay, nodes, order, runs, p);
      FragmentUse(heap.info, heap.lay, heap.brk, heap.mem, p.block);
      var e := heap.info[p.block];
      ghost var runs0 := runs;
      if e.nfree != 0 {
        runs := InsertStep(heap.info, heap.lay, nodes, fragblocks, order, runs, p);
        var first := At(p.block, e.first * Size(e.log));
        nodes := LinkAfter(nodes, first, p);
        heap.SetUse(p.block, e.(nfree := e.nfree + 1));
      } else {
        order, runs := AnnounceStep(heap.info, heap.lay, nodes, fragblocks, order, runs, p);
        nodes := LinkAfter(nodes, Head(e.log), p);
        heap.SetUse(p.block, Frag(e.log, 1, NumberOf(e.log, p.offset)));
      }
      NowValid();
      NowSwapped(heap.lay, runs0, heap.lay, runs, p, Null);
    }

    /** free: one region less is in use, and nothing else changes; a cluster goes
        back whole, and a block of fragments exactly when no other fragment of it is in
        use and it is not the only block of the size. */
    method Free(p: Ptr)
      requires Valid() && (p == Null || InUse(p) > 0)
      modifies `nodes, `fragblocks, `order, `runs, heap`info, heap`lay, heap`heaplimit, heap`brk, heap`heapindex
      ensures Valid()
      ensures Swapped(old(heap.lay), old(runs), heap.lay, runs, p, Null)
      ensures Undamaged(old(heap.lay), old(runs), heap.mem, heap.lay, runs, heap.mem, p)
      ensures p != Null ==> p.At?
      ensures p != Null && (p.block !in old(runs) || old(LastOfBlock(p))) ==>
        && heap.lay.owned == old(heap.lay.owned) - {p.block} && heap.lay.live == old(heap.lay.live) - {p.block}
        && heap.brk == BreakAfter(old(heap.lay.owned) - {p.block}, old(heap.heaplimit), old(heap.brk), p.block)
      ensures p == Null || (p.block in old(runs) && !old(LastOfBlock(p))) ==> heap.lay == old(heap.lay) && heap.brk == old(heap.brk)
    {
      hide *;
      ValidIs();
      InUseIs(p);
      ghost var l0, runs0 := heap.lay, runs;
      if p == Null {
        NowSwapped(l0, runs0, heap.lay, runs, p, Null);
      } else {
        heap.LiveFacts();
        ghost var i0 := InUseBlock(heap.info, heap.lay, nodes, order, runs, p);
        LiveOwned(heap.info, heap.lay, heap.brk, heap.mem);
        var e := heap.info[p.block];
        if e.Frag? {
          FragmentLog(e, runs, p.block);
          LastOfBlockIff(p);
          if e.nfree == PerBlock(e.log) - 1 && fragblocks[e.log] > 1 {
            FreeBlock(p);
          } else {
            FreeFragment(p);
          }
        } else {
          WholeBlock(heap.info, heap.lay, heap.brk, heap.mem, runs, p.block);
          FreeClusters(p.block);
          NowSwapped(l0, runs0, heap.lay, runs, p, Null);
        }
      }
      AfterSwap(l0, runs0, heap.lay, runs, heap.mem, p);
    }

    /** Allocate anew, copy n bytes, and free the old region. */
    method Relocate(p: Ptr, size: nat, n: nat) returns (r: Ptr)
      requires Valid() && size > 0 && n <= size && n <= BLOCKSIZE / 2 && n <= InUse(p)
      requires p != Null && InUse(p) > 0
      modifies this, heap
      ensures Valid() && (r != Null ==> r.At? && InUse(r) == RegionSize(size) >= size && r != p)
      ensures r == Null <==> old(Fails(size))
      ensures r == Null ==> nodes == old(nodes) && runs == old(runs) && heap.info == old(heap.info) && heap.lay == old(heap.lay)
      ensures r == Null ==> heap.brk == old(heap.brk) && heap.heaplimit == old(heap.heaplimit) && heap.mem == old(heap.mem)
      ensures Swapped(old(heap.lay), old(runs), heap.lay, runs, if r == Null then Null else p, r)
      ensures Undamaged(old(heap.lay), old(runs), old(heap.mem), heap.lay, runs, heap.mem, if r == Null then Null else p)
      ensures r != Null ==> CopyOf(old(heap.mem), p, heap.mem, r, n)
    {
      hide *;
      InUseIs(p);
      ghost var l0, runs0, mem0 := heap.lay, runs, heap.mem;
      r := Malloc(size);
      if r == Null { return; }
      ValidIs();
      heap.LiveFacts();
      InUseIs(r);
      FragmentsLive(heap.info, heap.lay, heap.brk, heap.mem, runs);
      ghost var l1, runs1, mem1 := heap.lay, runs, heap.mem;
      StillInUse(l0, runs0, mem0, l1, runs1, mem1, p, r);
      CopyFits(heap.info, l1, heap.brk, mem1, runs1, r, n);
      CopyFits(heap.info, l1, heap.brk, mem1, runs1, p, n);
      heap.CopyBytes(r.block, r.offset, p.block, p.offset, n);
      ghost var mem2 := heap.mem;
      NowValid();
      InUseIs(p);
      CopyOthers(heap.info, l1, heap.brk, mem1, mem2, runs1, r, n);
      BytesCopied(mem1, mem2, p, r, n);
      Free(p);
      InUseIs(r);
      Relocated(l0, runs0, mem0, l1, runs1, mem1, mem2, heap.lay, runs, p, r, n);
    }

    /** There is no room for so many blocks even with those of p. */
    ghost predicate FailsWithout(p: Ptr, blocks: nat)
      requires p.At?
      reads heap
    {
      NoRoom(heap.lay.owned - {p.block}, heap.heaplimit, heap.brk, |heap.info|, heap.capacity, blocks)
    }

    lemma {:induction false} FailsWithoutIs(p: Ptr, blocks: nat)
      requires p.At?
      ensures FailsWithout(p, blocks)
        <==> NoRoom(heap.lay.owned - {p.block}, heap.heaplimit, heap.brk, |heap.info|, heap.capacity, blocks)
    {
    }

    /** realloc of a large region to a large size. */
    method ResizeClusters(p: Ptr, blocks: nat) returns (r: Ptr)
      requires Valid() && InUse(p) > 0 && p.At? && p.block < |heap.info| && heap.info[p.block].Busy? && blocks > 0
      modifies heap
      ensures Valid() && (r != Null ==> r.At? && InUse(r) == blocks * BLOCKSIZE)
      ensures r == Null <==> blocks * BLOCKSIZE > old(InUse(p)) && old(FailsWithout(p, blocks))
      ensures blocks * BLOCKSIZE <= old(InUse(p)) ==> r == p
      ensures r == Null ==> heap.lay == old(heap.lay) && heap.mem == old(heap.mem)
      ensures Swapped(old(heap.lay), runs, heap.lay, runs, if r == Null then Null else p, r)
      ensures Undamaged(old(heap.lay), runs, old(heap.mem), heap.lay, runs, heap.mem, if r == Null then Null else p)
      ensures r != Null ==>
        CopyOf(old(heap.mem), p, heap.mem, r, if old(InUse(p)) < blocks * BLOCKSIZE then old(InUse(p)) else blocks * BLOCKSIZE)
    {
      hide *;
      ValidIs();
      InUseIs(p);
      heap.LiveFacts();
      ghost var l0, info0, mem0, brk0 := heap.lay, heap.info, heap.mem, heap.brk;
      ghost var i0 := InUseBlock(info0, l0, nodes, order, runs, p);
      FailsWithoutIs(p, blocks);
      BusyWhole(info0, l0, brk0, mem0, runs, p);
      var block, cur := p.block, heap.info[p.block].blocks;
      MoreBytes(blocks, cur);
      if blocks < cur {
        heap.Shrink(block, blocks);
        r := p;
      } else if blocks == cur {
        r := p;
      } else {
        var at := heap.Grow(block, blocks);
        r := if at == 0 then Null else At(at, 0);
      }
      heap.LiveFacts();
      if r == Null {
        SameLayout(info0, heap.info, l0, heap.brk, heap.mem, runs);
        NowSwapped(l0, runs, heap.lay, runs, Null, Null);
        CopySame(l0, runs, heap.lay, runs, heap.mem, Null);
      } else {
        if blocks <= cur {
          MovedRefl(info0, l0, brk0, mem0, block, blocks);
          SameLive(l0, info0, brk0, mem0, heap.info, heap.lay, block);
        }
        ClusterResized(info0, l0, brk0, mem0, heap.info, heap.lay, heap.brk, heap.mem, runs, block, r.block, cur, blocks);
      }
      NowValid();
      InUseIs(r);
    }

    /** A region of p's size holds so many bytes and is not too large for them: the same
        kind of fragment, or blocks enough. */
    ghost predicate Stays(p: Ptr, size: nat)
      reads this, heap
    {
      && p != Null && size > 0
      && if InUse(p) <= BLOCKSIZE / 2 then InUse(p) / 2 < size <= InUse(p) else size > BLOCKSIZE / 2 && RegionSize(size) <= InUse(p)
    }

    /** When realloc returns NULL: for size 0, and when there is no room for a new region,
        with p's own blocks in it if both are large. */
    ghost predicate ReallocFails(p: Ptr, size: nat)
      reads this, heap
    {
      && !Stays(p, size)
      && if p.At? && size > BLOCKSIZE / 2 && InUse(p) > BLOCKSIZE / 2 then FailsWithout(p, Blockify(size)) else Fails(size)
    }

    lemma {:induction false} ReallocIs(p: Ptr, size: nat)
      ensures Stays(p, size) <==>
        && p != Null && size > 0
        && if InUse(p) <= BLOCKSIZE / 2 then InUse(p) / 2 < size <= InUse(p) else size > BLOCKSIZE / 2 && RegionSize(size) <= InUse(p)
      ensures ReallocFails(p, size) <==>
        && !Stays(p, size)
        && if p.At? && size > BLOCKSIZE / 2 && InUse(p) > BLOCKSIZE / 2 then FailsWithout(p, Blockify(size)) else Fails(size)
    {
      hide InUse, FailsWithout, Fails, RegionSize, Blockify;
    }

    /** realloc: the region moves to r, of the new size rounded up, with the bytes
        both sizes hold; every other region keeps place, size and contents. It stays
        where it is if its size will do, and otherwise fails exactly when there is no
        room. On failure the old region is untouched, even where the code has freed it
        before finding out. A size of 0 frees. */
    method Realloc(p: Ptr, size: nat) returns (r: Ptr)
      requires Valid() && (p == Null || InUse(p) > 0)
      modifies this, heap
      ensures Valid() && (r != Null ==> r.At? && InUse(r) == RegionSize(size) >= size > 0) && (size == 0 ==> r == Null)
      ensures (r == Null <==> old(ReallocFails(p, size))) && (old(Stays(p, size)) ==> r == p)
      ensures Swapped(old(heap.lay), old(runs), heap.lay, runs, if r == Null && size > 0 then Null else p, r)
      ensures Undamaged(old(heap.lay), old(runs), old(heap.mem), heap.lay, runs, heap.mem,
                        if r == Null && size > 0 then Null else p)
      ensures r != Null && p != Null ==>
        CopyOf(old(heap.mem), p, heap.mem, r, if old(InUse(p)) < size then old(InUse(p)) else size)
    {
      hide *;
      ValidIs();
      InUseIs(p);
      ReallocIs(p, size);
      FailsIs(size);
      ghost var l0, mem0, have := heap.lay, heap.mem, InUse(p);
      if p == Null {
        r := Malloc(size);
      } else if size == 0 {
        Free(p);
        r := Null;
      } else {
        heap.LiveFacts();
        ghost var i0 := InUseBlock(heap.info, heap.lay, nodes, order, runs, p);
        LiveOwned(heap.info, heap.lay, heap.brk, heap.mem);
        var e := heap.info[p.block];
        if e.Frag? {
          FragmentHolds(e, heap.lay, runs, p);
          SameClass(e.log, size);
          if Size(e.log - 1) < size <= Size(e.log) {
            r := p;
            CopyRefl(mem0, p, size);
            NowSwapped(l0, runs, l0, runs, p, p);
            CopySame(l0, runs, l0, runs, mem0, p);
          } else {
            r := Relocate(p, size, if size < Size(e.log) then size else Size(e.log));
          }
        } else {
          WholeBlock(heap.info, heap.lay, heap.brk, heap.mem, runs, p.block);
          BusyWhole(heap.info, heap.lay, heap.brk, heap.mem, runs, p);
          PageAtLeast(heap.lay, p.block);
          if size <= BLOCKSIZE / 2 {
            r := Relocate(p, size, size);
          } else {
            BlockifyIs(size);
            r := ResizeClusters(p, Blockify(size));
            if r != Null {
              CopyPart(mem0, p, heap.mem, r, if have < Blockify(size) * BLOCKSIZE then have else Blockify(size) * BLOCKSIZE,
                       if have < size then have else size);
            }
          }
        }
      }
    }
  }

  lemma {:induction false} MoreBytes(m: nat, n: nat)
    ensures m * BLOCKSIZE > n * BLOCKSIZE <==> m > n
  {
  }

  /** A size that stays in its class. */
  lemma {:induction false} SameClass(log: nat, size: nat)
    requires MINLOG <= log < BLOCKLOG && size > 0
    ensures Size(log) / 2 == Size(log - 1)
    ensures Size(log - 1) < size <= Size(log) ==> RegionSize(size) == Size(log)
  {
    hide Size;
    assert Size(log) == 2 * Size(log - 1) by { SizeTwice(log); }
    if Size(log - 1) < size <= Size(log) {
      LargestFragment();
      SizeOrder(log, 11);
      SmallestFragment();
      var n := if size < 8 then 8 else size;
      SizeOrder(MINLOG, log);
      if MINLOG < log { SizeOrder(MINLOG, log - 1); } else { SizeTwice(MINLOG); }
      LogFound(size, log);
    }
  }

  lemma {:induction false} SizeTwice(log: nat)
    requires log > 0
    ensures Size(log) == 2 * Size(log - 1)
  {
  }

  /** There is another block of the size exactly when they are counted to be more than
      one. */
  lemma {:induction false} OtherBlock(fragblocks: seq<nat>, runs: Runs, b: nat)
    requires Counted(fragblocks, runs) && b in runs && runs[b].log < BLOCKLOG
    ensures |fragblocks| == BLOCKLOG
    ensures fragblocks[runs[b].log] > 1 <==> exists c :: c in runs && c != b && runs[c].log == runs[b].log
  {
    var all := Blocks(runs, runs[b].log);
    assert b in all && |all - {b}| == |all| - 1;
    if |all| > 1 {
      var c :| c in all - {b};
    }
    if c :| c in runs && c != b && runs[c].log == runs[b].log {
      assert c in all - {b};
    }
  }
}
