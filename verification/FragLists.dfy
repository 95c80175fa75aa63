/** The allocator's lists of free fragments: one doubly linked list for each
    fragment size, its cells stored in the free fragments themselves. */
module FragLists {
  import opened Bits
  import opened Permutations

  /** An address: a list head, or an offset in a block. */
  datatype Ptr = Null | Head(log: nat) | At(block: nat, offset: nat)

  datatype Node = Node(next: Ptr, prev: Ptr)

  type Nodes = map<Ptr, Node>

  const BLOCKLOG: nat := 12
  const MINLOG: nat := 3

  /** The size of a fragment. */
  function Size(log: nat): (r: nat)
    ensures r > 0
  {
    Pow2(log)
  }

  /** Fragments to a block. */
  function PerBlock(log: nat): nat
    requires log <= BLOCKLOG
  {
    Pow2(BLOCKLOG - log)
  }

  lemma {:induction false} Fills(log: nat)
    requires log <= BLOCKLOG
    ensures PerBlock(log) * Size(log) == 4096 && Size(log) > 0 && PerBlock(log) > 0
    ensures log < BLOCKLOG ==> PerBlock(log) >= 2
  {
    Pow2Add(BLOCKLOG - log, log);
    Pow2Values();
    Pow2Add(8, 4);
  }

  // --------------------------------------------------------------- linked lists

  /** full is a head and then its list. */
  ghost predicate Threaded(nodes: Nodes, full: seq<Ptr>) {
    |full| >= 1 && forall k :: 0 <= k < |full| ==> Hooked(nodes, full, k)
  }

  ghost predicate Hooked(nodes: Nodes, full: seq<Ptr>, k: nat)
    requires k < |full|
  {
    && full[k] in nodes && full[k] != Null
    && nodes[full[k]].next == (if k + 1 < |full| then full[k + 1] else Null)
    && (k > 0 ==> nodes[full[k]].prev == full[k - 1])
  }

  ghost predicate Off(full: seq<Ptr>, p: Ptr) {
    forall k :: 0 <= k < |full| ==> full[k] != p
  }

  /** Cells that are not on full, p aside, are as they were. */
  ghost predicate SameBut(nodes: Nodes, nodes': Nodes, full: seq<Ptr>, p: Ptr) {
    forall q :: q in nodes && q != p && Off(full, q) ==> q in nodes' && nodes'[q] == nodes[q]
  }

  /** Link cell p in after prev. */
  function LinkAfter(nodes: Nodes, prev: Ptr, p: Ptr): Nodes
    requires prev in nodes && (nodes[prev].next != Null ==> nodes[prev].next in nodes)
  {
    var next := nodes[prev].next;
    var nodes1 := nodes[p := Node(next, prev)];
    var nodes2 := nodes1[prev := nodes1[prev].(next := p)];
    if next != Null then nodes2[next := nodes2[next].(prev := p)] else nodes2
  }

  function PutAfter(full: seq<Ptr>, k: nat, p: Ptr): (r: seq<Ptr>)
    requires k < |full|
    ensures |r| == |full| + 1 && r[k + 1] == p
    ensures forall j :: 0 <= j <= k ==> r[j] == full[j]
    ensures forall j :: k + 1 < j < |r| ==> r[j] == full[j - 1]
  {
    full[..k + 1] + [p] + full[k + 1..]
  }

  /** What linking in does to the cell of full[j]. */
  lemma {:induction false} LinkAfterCell(nodes: Nodes, full: seq<Ptr>, k: nat, p: Ptr, j: nat)
    requires Threaded(nodes, full) && Distinct(full) && k < |full| && j < |full| && Off(full, p) && p != Null
    ensures full[k] in nodes && (nodes[full[k]].next != Null ==> nodes[full[k]].next in nodes)
    ensures full[j] in LinkAfter(nodes, full[k], p)
    ensures LinkAfter(nodes, full[k], p)[full[j]]
         == Node(if j == k then p else nodes[full[j]].next, if j == k + 1 then p else nodes[full[j]].prev)
  {
    assert Hooked(nodes, full, k) && Hooked(nodes, full, j);
    if k + 1 < |full| { assert Hooked(nodes, full, k + 1); }
  }

  lemma {:induction false} LinkedAfter(nodes: Nodes, full: seq<Ptr>, k: nat, p: Ptr)
    requires Threaded(nodes, full) && Distinct(full) && k < |full| && Off(full, p) && p != Null
    ensures full[k] in nodes && (nodes[full[k]].next != Null ==> nodes[full[k]].next in nodes)
    ensures var nodes' := LinkAfter(nodes, full[k], p);
      && Threaded(nodes', PutAfter(full, k, p)) && SameBut(nodes, nodes', full, p)
      && nodes'.Keys == nodes.Keys + {p}
  {
    hide LinkAfter, Distinct;
    assert Hooked(nodes, full, k);
    LinkAfterCell(nodes, full, k, p, k);
    var nodes', full' := LinkAfter(nodes, full[k], p), PutAfter(full, k, p);
    LinkAfterNew(nodes, full, k, p);
    forall j | 0 <= j < |full'| ensures Hooked(nodes', full', j) {
      if j != k + 1 {
        var i := if j <= k then j else j - 1;
        assert full'[j] == full[i] && Hooked(nodes, full, i);
        LinkAfterCell(nodes, full, k, p, i);
      }
    }
  }

  lemma {:induction false} LinkAfterNew(nodes: Nodes, full: seq<Ptr>, k: nat, p: Ptr)
    requires Threaded(nodes, full) && k < |full| && Off(full, p) && p != Null
    requires full[k] in nodes && (nodes[full[k]].next != Null ==> nodes[full[k]].next in nodes)
    ensures var nodes' := LinkAfter(nodes, full[k], p);
      && p in nodes' && nodes'[p] == Node(if k + 1 < |full| then full[k + 1] else Null, full[k])
      && SameBut(nodes, nodes', full, p) && nodes'.Keys == nodes.Keys + {p}
  {
    assert Hooked(nodes, full, k);
    if k + 1 < |full| { assert Hooked(nodes, full, k + 1); }
  }

  /** Join prev to next, dropping what was between them. */
  function CutOut(nodes: Nodes, prev: Ptr, next: Ptr): Nodes
    requires prev in nodes && (next != Null ==> next in nodes)
  {
    var nodes1 := nodes[prev := nodes[prev].(next := next)];
    if next != Null then nodes1[next := nodes1[next].(prev := prev)] else nodes1
  }

  function Spliced(full: seq<Ptr>, k: nat, n: nat): (r: seq<Ptr>)
    requires k + n <= |full|
    ensures |r| == |full| - n
    ensures forall j :: 0 <= j < k ==> r[j] == full[j]
    ensures forall j :: k <= j < |r| ==> r[j] == full[j + n]
  {
    full[..k] + full[k + n..]
  }

  function Nth(full: seq<Ptr>, k: nat): Ptr {
    if k < |full| then full[k] else Null
  }

  lemma {:induction false} CutCell(nodes: Nodes, full: seq<Ptr>, k: nat, n: nat, j: nat)
    requires Threaded(nodes, full) && Distinct(full) && 0 < k && n > 0 && k + n <= |full|
    requires j < k || k + n <= j < |full|
    ensures full[k - 1] in nodes && (Nth(full, k + n) != Null ==> Nth(full, k + n) in nodes)
    ensures full[j] in CutOut(nodes, full[k - 1], Nth(full, k + n))
    ensures CutOut(nodes, full[k - 1], Nth(full, k + n))[full[j]]
         == Node(if j == k - 1 then Nth(full, k + n) else nodes[full[j]].next,
                 if j == k + n then full[k - 1] else nodes[full[j]].prev)
  {
    assert Hooked(nodes, full, k - 1) && Hooked(nodes, full, j);
    if k + n < |full| { assert Hooked(nodes, full, k + n); }
  }

  lemma {:induction false} CutOthers(nodes: Nodes, full: seq<Ptr>, k: nat, n: nat)
    requires Threaded(nodes, full) && 0 < k && k + n <= |full|
    ensures full[k - 1] in nodes && (Nth(full, k + n) != Null ==> Nth(full, k + n) in nodes)
    ensures var nodes' := CutOut(nodes, full[k - 1], Nth(full, k + n));
      SameBut(nodes, nodes', full, Null) && nodes'.Keys == nodes.Keys
  {
    assert Hooked(nodes, full, k - 1);
    if k + n < |full| { assert Hooked(nodes, full, k + n); }
  }

  /** Cutting n cells out of a list. */
  lemma {:induction false} CutFrom(nodes: Nodes, full: seq<Ptr>, k: nat, n: nat)
    requires Threaded(nodes, full) && Distinct(full) && 0 < k && n > 0 && k + n <= |full|
    ensures full[k - 1] in nodes && (Nth(full, k + n) != Null ==> Nth(full, k + n) in nodes)
    ensures var nodes' := CutOut(nodes, full[k - 1], Nth(full, k + n));
      && Threaded(nodes', Spliced(full, k, n)) && SameBut(nodes, nodes', full, Null) && nodes'.Keys == nodes.Keys
  {
    hide CutOut, Distinct;
    CutOthers(nodes, full, k, n);
    var nodes', full' := CutOut(nodes, full[k - 1], Nth(full, k + n)), Spliced(full, k, n);
    forall j | 0 <= j < |full'| ensures Hooked(nodes', full', j) {
      var i := if j < k then j else j + n;
      assert full'[j] == full[i] && Hooked(nodes, full, i);
      CutCell(nodes, full, k, n, i);
      if j == k { assert full'[j - 1] == full[k - 1]; }
    }
  }

  // ------------------------------------------------------------------- the chains

  /** A block's fragment size and its free fragments, in list order. */
  datatype Run = Run(log: nat, offs: seq<nat>)

  type Runs = map<nat, Run>

  function Cells(b: nat, offs: seq<nat>): (r: seq<Ptr>)
    ensures |r| == |offs| && forall i :: 0 <= i < |r| ==> r[i] == At(b, offs[i])
  {
    seq(|offs|, i requires 0 <= i < |offs| => At(b, offs[i]))
  }

  ghost predicate Has(runs: Runs, order: seq<nat>) {
    forall i :: 0 <= i < |order| ==> order[i] in runs
  }

  /** The free fragments of the blocks of order, run by run. */
  ghost function Chain(order: seq<nat>, runs: Runs): seq<Ptr>
    requires Has(runs, order)
  {
    if order == [] then [] else Cells(order[0], runs[order[0]].offs) + Chain(order[1..], runs)
  }

  lemma {:induction false} ChainAppend(x: seq<nat>, y: seq<nat>, runs: Runs)
    requires Has(runs, x) && Has(runs, y)
    ensures Has(runs, x + y) && Chain(x + y, runs) == Chain(x, runs) + Chain(y, runs)
  {
    if x == [] {
      assert x + y == y;
    } else {
      assert x == [x[0]] + x[1..] && (x + y)[1..] == x[1..] + y;
      ChainAppend(x[1..], y, runs);
    }
  }

  lemma {:induction false} ChainOne(b: nat, runs: Runs)
    requires b in runs
    ensures Has(runs, [b]) && Chain([b], runs) == Cells(b, runs[b].offs)
  {
    assert [b][1..] == [];
  }

  /** The blocks of order have the same free fragments in both. */
  ghost predicate Agree(order: seq<nat>, runs: Runs, runs': Runs) {
    && Has(runs, order) && Has(runs', order)
    && forall i :: 0 <= i < |order| ==> runs'[order[i]].offs == runs[order[i]].offs
  }

  lemma {:induction false} ChainSame(order: seq<nat>, runs: Runs, runs': Runs)
    requires Agree(order, runs, runs')
    ensures Chain(order, runs') == Chain(order, runs)
  {
    if order != [] {
      ChainSame(order[1..], runs, runs');
    }
  }

  /** A cell of the chain belongs to a block of the order, and is free there. */
  lemma {:induction false} ChainMember(order: seq<nat>, runs: Runs, k: nat)
    requires Has(runs, order) && k < |Chain(order, runs)|
    ensures var p := Chain(order, runs)[k]; p.At? && p.block in order && p.block in runs && p.offset in runs[p.block].offs
  {
    var head := Cells(order[0], runs[order[0]].offs);
    if k >= |head| {
      ChainMember(order[1..], runs, k - |head|);
    }
  }

  lemma {:induction false} ChainDistinct(order: seq<nat>, runs: Runs)
    requires Has(runs, order) && Distinct(order)
    requires forall i :: 0 <= i < |order| ==> Distinct(runs[order[i]].offs)
    ensures Distinct(Chain(order, runs))
  {
    if order != [] {
      ChainDistinct(order[1..], runs);
      var head, rest := Cells(order[0], runs[order[0]].offs), Chain(order[1..], runs);
      forall j, k | 0 <= j < k < |head + rest| ensures (head + rest)[j] != (head + rest)[k] {
        if j < |head| <= k {
          ChainMember(order[1..], runs, k - |head|);
          assert rest[k - |head|].block != order[0];
        }
      }
    }
  }

  /** The list of one fragment size, head included. */
  ghost function Full(log: nat, order: seq<nat>, runs: Runs): seq<Ptr>
    requires Has(runs, order)
  {
    [Head(log)] + Chain(order, runs)
  }

  lemma {:induction false} FullDistinct(log: nat, order: seq<nat>, runs: Runs)
    requires Has(runs, order) && Distinct(order)
    requires forall i :: 0 <= i < |order| ==> Distinct(runs[order[i]].offs)
    ensures Distinct(Full(log, order, runs))
  {
    ChainDistinct(order, runs);
    forall k | 0 <= k < |Chain(order, runs)| ensures Chain(order, runs)[k] != Head(log) {
      ChainMember(order, runs, k);
    }
  }

  /** Where the run of order[i] starts in the list. */
  lemma {:induction false} FullSplit(log: nat, order: seq<nat>, runs: Runs, i: nat)
    requires Has(runs, order) && i < |order|
    ensures Has(runs, order[..i]) && Has(runs, order[i + 1..])
    ensures Full(log, order, runs)
         == Full(log, order[..i], runs) + Cells(order[i], runs[order[i]].offs) + Chain(order[i + 1..], runs)
  {
    assert order == order[..i] + ([order[i]] + order[i + 1..]);
    ChainOne(order[i], runs);
    ChainAppend([order[i]], order[i + 1..], runs);
    ChainAppend(order[..i], [order[i]] + order[i + 1..], runs);
  }

  // ------------------------------------------------------------ one list, all lists

  /** A block's free fragments are distinct and lie on fragment boundaries. */
  ghost predicate Sound(r: Run) {
    && MINLOG <= r.log < BLOCKLOG && Distinct(r.offs)
    && forall i :: 0 <= i < |r.offs| ==> Boundary(r.log, r.offs[i])
  }

  predicate Boundary(log: nat, off: nat) {
    off < 4096 && off % Size(log) == 0
  }

  /** The list for size log runs through exactly the blocks of that size with a
      fragment free, all of a block's free fragments together. */
  ghost predicate ListOk(nodes: Nodes, order: seq<nat>, runs: Runs, log: nat) {
    && Distinct(order) && Has(runs, order)
    && (forall i :: 0 <= i < |order| ==> runs[order[i]].log == log && runs[order[i]].offs != [])
    && (forall b :: b in runs && runs[b].log == log && runs[b].offs != [] ==> b in order)
    && Threaded(nodes, Full(log, order, runs))
  }

  ghost predicate AllSound(runs: Runs) {
    forall b :: b in runs ==> Sound(runs[b])
  }

  ghost predicate AllLists(nodes: Nodes, order: seq<seq<nat>>, runs: Runs) {
    |order| == BLOCKLOG && forall log :: MINLOG <= log < BLOCKLOG ==> ListOk(nodes, order[log], runs, log)
  }

  ghost predicate Cell(runs: Runs, q: Ptr) {
    if q.Head? then q.log < BLOCKLOG else q.At? && q.block in runs && q.offset in runs[q.block].offs
  }

  /** List cells are the heads and the free fragments, nothing else: no write to
      a cell can touch memory in use. */
  ghost predicate CellsFree(nodes: Nodes, runs: Runs) {
    forall q :: q in nodes <==> Cell(runs, q)
  }

  ghost function Blocks(runs: Runs, log: nat): set<nat> {
    set b | b in runs && runs[b].log == log
  }

  /** Everything about the fragment lists that does not mention the table. */
  ghost predicate Lists(nodes: Nodes, order: seq<seq<nat>>, runs: Runs) {
    AllSound(runs) && AllLists(nodes, order, runs) && CellsFree(nodes, runs)
  }

  ghost predicate Mine(runs: Runs, log: nat, q: Ptr) {
    if q.Head? then q.log == log else q.At? && q.block in runs && runs[q.block].log == log
  }

  /** Only cells of size log may have changed. */
  ghost predicate OnlyOf(nodes: Nodes, nodes': Nodes, runs: Runs, log: nat) {
    forall q :: q in nodes && !Mine(runs, log, q) ==> q in nodes' && nodes'[q] == nodes[q]
  }

  /** Blocks of other sizes are as they were. */
  ghost predicate SameRuns(runs: Runs, runs': Runs, log: nat) {
    && (forall b :: b in runs && runs[b].log != log ==> b in runs' && runs'[b] == runs[b])
    && (forall b :: b in runs' && runs'[b].log != log ==> b in runs && runs[b].log != log)
  }

  lemma {:induction false} FullMine(log: nat, order: seq<nat>, runs: Runs, k: nat)
    requires Has(runs, order) && (forall i :: 0 <= i < |order| ==> runs[order[i]].log == log)
    requires k < |Full(log, order, runs)|
    ensures Mine(runs, log, Full(log, order, runs)[k])
  {
    if k > 0 {
      ChainMember(order, runs, k - 1);
    }
  }

  /** The lists of other sizes are undisturbed. */
  lemma {:induction false} OtherList(nodes: Nodes, nodes': Nodes, order: seq<nat>, runs: Runs, runs': Runs, changed: Runs, log: nat, log': nat)
    requires ListOk(nodes, order, runs, log') && log' != log
    requires OnlyOf(nodes, nodes', changed, log) && SameRuns(runs, runs', log)
    requires forall b :: b in changed && b in runs && runs[b].log != log ==> changed[b].log != log
    ensures ListOk(nodes', order, runs', log')
  {
    var full := Full(log', order, runs);
    assert Has(runs', order);
    ChainSame(order, runs, runs');
    forall k | 0 <= k < |full| ensures Hooked(nodes', full, k) {
      assert Hooked(nodes, full, k);
      FullMine(log', order, runs, k);
    }
  }

  lemma {:induction false} SetList(nodes: Nodes, nodes': Nodes, order: seq<seq<nat>>, runs: Runs, runs': Runs, changed: Runs,
                                   log: nat, order': seq<nat>)
    requires AllLists(nodes, order, runs) && MINLOG <= log < BLOCKLOG && ListOk(nodes', order', runs', log)
    requires OnlyOf(nodes, nodes', changed, log) && SameRuns(runs, runs', log)
    requires forall b :: b in changed && b in runs && runs[b].log != log ==> changed[b].log != log
    ensures AllLists(nodes', order[log := order'], runs')
  {
    hide ListOk, OnlyOf, SameRuns;
    var lists := order[log := order'];
    forall log' | MINLOG <= log' < BLOCKLOG ensures ListOk(nodes', lists[log'], runs', log') {
      if log' != log {
        OtherList(nodes, nodes', order[log'], runs, runs', changed, log, log');
      }
    }
  }

  /** A change to the list itself touches only its own cells. */
  lemma {:induction false} OwnCells(nodes: Nodes, nodes': Nodes, order: seq<nat>, runs: Runs, log: nat, p: Ptr)
    requires ListOk(nodes, order, runs, log) && SameBut(nodes, nodes', Full(log, order, runs), p)
    requires p != Null ==> Mine(runs, log, p)
    ensures Null in nodes || OnlyOf(nodes, nodes', runs, log)
  {
    var full := Full(log, order, runs);
    forall q | q in nodes && !Mine(runs, log, q) ensures Off(full, q) {
      forall k | 0 <= k < |full| ensures full[k] != q {
        FullMine(log, order, runs, k);
      }
    }
  }

  // ------------------------------------------------------- changes to one list

  /** The list with the run of order[i] replaced by offs. */
  ghost function WithRun(log: nat, order: seq<nat>, runs: Runs, i: nat, offs: seq<nat>): seq<Ptr>
    requires Has(runs, order) && i < |order|
  {
    Full(log, order[..i], runs) + Cells(order[i], offs) + Chain(order[i + 1..], runs)
  }

  lemma {:induction false} Replaced(nodes': Nodes, order: seq<nat>, runs: Runs, log: nat, i: nat, offs: seq<nat>)
    requires Distinct(order) && Has(runs, order) && i < |order| && offs != []
    requires forall j :: 0 <= j < |order| ==> runs[order[j]].log == log && runs[order[j]].offs != []
    requires forall b :: b in runs && runs[b].log == log && runs[b].offs != [] ==> b in order
    requires Threaded(nodes', WithRun(log, order, runs, i, offs))
    ensures ListOk(nodes', order, runs[order[i] := Run(log, offs)], log)
  {
    var runs' := runs[order[i] := Run(log, offs)];
    FullSplit(log, order, runs', i);
    ChainSame(order[..i], runs, runs');
    ChainSame(order[i + 1..], runs, runs');
  }

  function Skip(order: seq<nat>, i: nat): (r: seq<nat>)
    requires i < |order|
    ensures |r| == |order| - 1 && forall j :: 0 <= j < |r| ==> r[j] == order[if j < i then j else j + 1]
  {
    order[..i] + order[i + 1..]
  }

  lemma {:induction false} SkipKeeps(order: seq<nat>, i: nat, b: nat)
    requires Distinct(order) && i < |order|
    ensures b in Skip(order, i) <==> b in order && b != order[i]
    ensures Distinct(Skip(order, i))
  {
    var r := Skip(order, i);
    if b in order && b != order[i] {
      var j :| 0 <= j < |order| && order[j] == b;
      assert r[if j < i then j else j - 1] == b;
    }
  }

  lemma {:induction false} Dropped(nodes': Nodes, order: seq<nat>, runs: Runs, runs': Runs, log: nat, i: nat)
    requires Distinct(order) && Has(runs, order) && i < |order|
    requires forall j :: 0 <= j < |order| ==> runs[order[j]].log == log && runs[order[j]].offs != []
    requires forall b :: b in runs && runs[b].log == log && runs[b].offs != [] ==> b in order
    requires runs' == runs - {order[i]} || runs' == runs[order[i] := Run(log, [])]
    requires Threaded(nodes', WithRun(log, order, runs, i, []))
    ensures ListOk(nodes', Skip(order, i), runs', log)
  {
    hide Threaded, Skip;
    DroppedFull(order, runs, runs', log, i);
    forall b ensures b in Skip(order, i) <==> b in order && b != order[i] {
      SkipKeeps(order, i, b);
    }
  }

  lemma {:induction false} DroppedFull(order: seq<nat>, runs: Runs, runs': Runs, log: nat, i: nat)
    requires Distinct(order) && Has(runs, order) && i < |order|
    requires forall b :: b in runs && b != order[i] ==> b in runs' && runs'[b] == runs[b]
    ensures Has(runs', Skip(order, i)) && Distinct(Skip(order, i))
    ensures Full(log, Skip(order, i), runs') == WithRun(log, order, runs, i, [])
  {
    SkipKeeps(order, i, 0);
    PartsKept(order, runs, runs', i);
    hide Distinct, Chain;
    var x, y := order[..i], order[i + 1..];
    assert Skip(order, i) == x + y;
    ChainAppend(x, y, runs');
    ChainSame(x, runs, runs');
    ChainSame(y, runs, runs');
    assert Cells(order[i], []) == [];
  }

  lemma {:induction false} PartsKept(order: seq<nat>, runs: Runs, runs': Runs, i: nat)
    requires Distinct(order) && Has(runs, order) && i < |order|
    requires forall b :: b in runs && b != order[i] ==> b in runs' && runs'[b] == runs[b]
    ensures Agree(order[..i], runs, runs') && Agree(order[i + 1..], runs, runs')
  {
  }

  lemma {:induction false} Fronted(nodes': Nodes, order: seq<nat>, runs: Runs, log: nat, b: nat, offs: seq<nat>)
    requires Distinct(order) && Has(runs, order) && b !in order && offs != []
    requires forall j :: 0 <= j < |order| ==> runs[order[j]].log == log && runs[order[j]].offs != []
    requires forall c :: c in runs && runs[c].log == log && runs[c].offs != [] ==> c in order
    requires Threaded(nodes', [Head(log)] + Cells(b, offs) + Chain(order, runs))
    ensures ListOk(nodes', [b] + order, runs[b := Run(log, offs)], log)
  {
    var runs', order' := runs[b := Run(log, offs)], [b] + order;
    ChainSame(order, runs, runs');
    assert order'[1..] == order;
    assert Full(log, order', runs') == [Head(log)] + Cells(b, offs) + Chain(order, runs);
    forall c | c in runs' && runs'[c].log == log && runs'[c].offs != [] ensures c in order' {
      if c == b { assert order'[0] == c; } else { assert c in order; }
    }
  }

  // ------------------------------------------------------- what the allocator does

  lemma {:induction false} ListsIs(nodes: Nodes, order: seq<seq<nat>>, runs: Runs, log: nat)
    requires Lists(nodes, order, runs) && MINLOG <= log < BLOCKLOG
    ensures |order| == BLOCKLOG && ListOk(nodes, order[log], runs, log) && Has(runs, order[log]) && Distinct(order[log])
    ensures AllSound(runs) && AllLists(nodes, order, runs) && CellsFree(nodes, runs) && Null !in nodes
    ensures forall j :: 0 <= j < |order[log]| ==> runs[order[log][j]].log == log && runs[order[log][j]].offs != []
    ensures forall b :: b in runs && runs[b].log == log && runs[b].offs != [] ==> b in order[log]
    ensures Threaded(nodes, Full(log, order[log], runs)) && Distinct(Full(log, order[log], runs))
  {
    assert ListOk(nodes, order[log], runs, log);
    assert !Cell(runs, Null);
    assert forall i :: 0 <= i < |order[log]| ==> Sound(runs[order[log][i]]);
    FullDistinct(log, order[log], runs);
  }

  /** Run i within its list. */
  lemma {:induction false} RunAt(log: nat, order: seq<nat>, runs: Runs, i: nat) returns (at: nat)
    requires Has(runs, order) && i < |order|
    ensures at == |Full(log, order[..i], runs)| >= 1 && at + |runs[order[i]].offs| <= |Full(log, order, runs)|
    ensures forall j :: 0 <= j < |runs[order[i]].offs| ==>
      Full(log, order, runs)[at + j] == At(order[i], runs[order[i]].offs[j])
    ensures WithRun(log, order, runs, i, runs[order[i]].offs) == Full(log, order, runs)
    ensures i == 0 ==> at == 1
  {
    hide Chain, Full;
    FullSplit(log, order, runs, i);
    at := |Full(log, order[..i], runs)|;
    HeadFirst(log, order[..i], runs);
    if i == 0 {
      assert order[..i] == [];
      NoChain(log, runs);
    }
  }

  lemma {:induction false} NoChain(log: nat, runs: Runs)
    ensures Full(log, [], runs) == [Head(log)]
  {
  }

  lemma {:induction false} SpliceRun(log: nat, order: seq<nat>, runs: Runs, i: nat, at: nat, n: nat)
    requires Has(runs, order) && i < |order| && n <= |runs[order[i]].offs|
    requires at == |Full(log, order[..i], runs)| && at + n <= |Full(log, order, runs)|
    requires WithRun(log, order, runs, i, runs[order[i]].offs) == Full(log, order, runs)
    ensures Spliced(Full(log, order, runs), at, n) == WithRun(log, order, runs, i, runs[order[i]].offs[n..])
  {
    var offs := runs[order[i]].offs;
    assert Cells(order[i], offs) == Cells(order[i], offs[..n]) + Cells(order[i], offs[n..]);
  }

  function CellsOf(b: nat, offs: seq<nat>): (r: set<Ptr>)
    ensures forall q :: q in r <==> q.At? && q.block == b && q.offset in offs
  {
    set o | o in offs :: At(b, o)
  }

  lemma {:induction false} DropCells(nodes: Nodes, full: seq<Ptr>, gone: set<Ptr>)
    requires Threaded(nodes, full) && forall k :: 0 <= k < |full| ==> full[k] !in gone
    ensures Threaded(nodes - gone, full)
  {
    forall k | 0 <= k < |full| ensures Hooked(nodes - gone, full, k) {
      assert Hooked(nodes, full, k);
    }
  }

  /** Cutting the first n free fragments of run i out of its list. */
  lemma {:induction false} CutRun(nodes: Nodes, order: seq<nat>, runs: Runs, log: nat, i: nat, n: nat)
    requires Has(runs, order) && i < |order| && 0 < n <= |runs[order[i]].offs| && Null !in nodes
    requires Threaded(nodes, Full(log, order, runs)) && Distinct(Full(log, order, runs))
    ensures var b := order[i]; var offs := runs[b].offs; var first := At(b, offs[0]); var last := At(b, offs[n - 1]);
      && first in nodes && last in nodes && nodes[first].prev in nodes
      && (nodes[last].next != Null ==> nodes[last].next in nodes)
      && (n < |offs| ==> nodes[last].next == At(b, offs[n]))
      && Head(log) in nodes && (i == 0 ==> nodes[Head(log)].next == first && nodes[first].prev == Head(log))
      && var nodes' := CutOut(nodes, nodes[first].prev, nodes[last].next) - CellsOf(b, offs[..n]);
      && Threaded(nodes', WithRun(log, order, runs, i, offs[n..]))
      && SameBut(nodes, nodes', Full(log, order, runs), Null) && nodes'.Keys == nodes.Keys - CellsOf(b, offs[..n])
  {
    hide CutOut, CellsOf, Full, WithRun, Chain;
    var full, offs := Full(log, order, runs), runs[order[i]].offs;
    var at := RunAt(log, order, runs, i);
    assert Hooked(nodes, full, 0) && Hooked(nodes, full, at) && Hooked(nodes, full, at + n - 1);
    CutFrom(nodes, full, at, n);
    var nodes1 := CutOut(nodes, full[at - 1], Nth(full, at + n));
    SpliceRun(log, order, runs, i, at, n);
    CutGone(full, at, n, order[i], offs);
    DropCells(nodes1, Spliced(full, at, n), CellsOf(order[i], offs[..n]));
    HeadFirst(log, order, runs);
  }

  lemma {:induction false} HeadFirst(log: nat, order: seq<nat>, runs: Runs)
    requires Has(runs, order)
    ensures |Full(log, order, runs)| > 0 && Full(log, order, runs)[0] == Head(log)
  {
  }

  lemma {:induction false} CutGone(full: seq<Ptr>, at: nat, n: nat, b: nat, offs: seq<nat>)
    requires Distinct(full) && at + |offs| <= |full| && n <= |offs|
    requires forall j :: 0 <= j < |offs| ==> full[at + j] == At(b, offs[j])
    ensures forall k :: 0 <= k < |Spliced(full, at, n)| ==> Spliced(full, at, n)[k] !in CellsOf(b, offs[..n])
    ensures forall q :: q in CellsOf(b, offs[..n]) ==> !Off(full, q)
  {
    var r := Spliced(full, at, n);
    forall q | q in CellsOf(b, offs[..n])
      ensures !Off(full, q) && forall k :: 0 <= k < |r| ==> r[k] != q
    {
      var j :| 0 <= j < n && offs[..n][j] == q.offset;
      assert full[at + j] == q;
      forall k | 0 <= k < |r| ensures r[k] != q {
        assert r[k] == full[if k < at then k else k + n];
      }
    }
  }

  ghost predicate Holds(runs: Runs, log: nat, b: nat) {
    b in runs && runs[b].log == log
  }

  /** The list of size log after the first n fragments of run i are gone. */
  ghost function AfterCut(order: seq<nat>, runs: Runs, i: nat, n: nat): seq<nat>
    requires Has(runs, order) && i < |order| && n <= |runs[order[i]].offs|
  {
    if n < |runs[order[i]].offs| then order else Skip(order, i)
  }

  /** Taking the first n fragments of run i off their list. When they are all the
      run, the block itself may leave too. */
  lemma {:induction false} CutLists(nodes: Nodes, order: seq<seq<nat>>, runs: Runs, runs': Runs, log: nat, i: nat, n: nat)
    requires Lists(nodes, order, runs) && MINLOG <= log < BLOCKLOG && i < |order[log]| && Has(runs, order[log])
    requires 0 < n <= |runs[order[log][i]].offs|
    requires runs' == runs[order[log][i] := Run(log, runs[order[log][i]].offs[n..])]
          || (n == |runs[order[log][i]].offs| && runs' == runs - {order[log][i]})
    ensures var b := order[log][i]; var offs := runs[b].offs; var first := At(b, offs[0]); var last := At(b, offs[n - 1]);
      && first in nodes && last in nodes && nodes[first].prev in nodes
      && (nodes[last].next != Null ==> nodes[last].next in nodes)
      && Lists(CutOut(nodes, nodes[first].prev, nodes[last].next) - CellsOf(b, offs[..n]),
               order[log := AfterCut(order[log], runs, i, n)], runs')
  {
    hide *;
    ListsIs(nodes, order, runs, log);
    var l, b := order[log], order[log][i];
    var offs := runs[b].offs;
    CutRun(nodes, l, runs, log, i, n);
    var first, last := At(b, offs[0]), At(b, offs[n - 1]);
    var nodes' := CutOut(nodes, nodes[first].prev, nodes[last].next) - CellsOf(b, offs[..n]);
    CutSound(runs, runs', b, n, log);
    CutOk(nodes', l, runs, runs', log, i, n);
    OwnCells(nodes, nodes', l, runs, log, Null);
    OneBlock(runs, runs', b, log);
    SetList(nodes, nodes', order, runs, runs', runs, log, AfterCut(l, runs, i, n));
    CutCells(nodes, nodes', runs, runs', b, n);
    NowLists(nodes', order[log := AfterCut(l, runs, i, n)], runs');
  }

  lemma {:induction false} NowLists(nodes: Nodes, order: seq<seq<nat>>, runs: Runs)
    requires AllSound(runs) && AllLists(nodes, order, runs) && CellsFree(nodes, runs)
    ensures Lists(nodes, order, runs)
  {
  }

  lemma {:induction false} CutOk(nodes': Nodes, order: seq<nat>, runs: Runs, runs': Runs, log: nat, i: nat, n: nat)
    requires Distinct(order) && Has(runs, order) && i < |order| && 0 < n <= |runs[order[i]].offs|
    requires forall j :: 0 <= j < |order| ==> runs[order[j]].log == log && runs[order[j]].offs != []
    requires forall b :: b in runs && runs[b].log == log && runs[b].offs != [] ==> b in order
    requires Threaded(nodes', WithRun(log, order, runs, i, runs[order[i]].offs[n..]))
    requires runs' == runs[order[i] := Run(log, runs[order[i]].offs[n..])]
          || (n == |runs[order[i]].offs| && runs' == runs - {order[i]})
    ensures ListOk(nodes', AfterCut(order, runs, i, n), runs', log)
  {
    hide ListOk, Threaded, WithRun, Distinct, Skip;
    if n < |runs[order[i]].offs| {
      Replaced(nodes', order, runs, log, i, runs[order[i]].offs[n..]);
    } else {
      assert runs[order[i]].offs[n..] == [];
      Dropped(nodes', order, runs, runs', log, i);
    }
  }

  lemma {:induction false} CutSound(runs: Runs, runs': Runs, b: nat, n: nat, log: nat)
    requires AllSound(runs) && b in runs && n <= |runs[b].offs| && runs[b].log == log
    requires runs' == runs[b := Run(log, runs[b].offs[n..])] || runs' == runs - {b}
    ensures AllSound(runs')
  {
    assert Sound(runs[b]);
    assert Sound(Run(log, runs[b].offs[n..]));
  }

  /** A change to one block of size log leaves the other sizes alone. */
  lemma {:induction false} OneBlock(runs: Runs, runs': Runs, b: nat, log: nat)
    requires b in runs ==> runs[b].log == log
    requires b in runs' ==> runs'[b].log == log
    requires forall c :: c != b ==> (c in runs <==> c in runs') && (c in runs ==> runs'[c] == runs[c])
    ensures SameRuns(runs, runs', log)
  {
  }

  lemma {:induction false} NotTwice(offs: seq<nat>, n: nat, x: nat)
    requires Distinct(offs) && n <= |offs| && x in offs[..n]
    ensures x !in offs[n..]
  {
    forall k | 0 <= k < |offs| - n ensures offs[n..][k] != x {
      assert offs[n..][k] == offs[n + k];
    }
  }

  lemma {:induction false} CutCells(nodes: Nodes, nodes': Nodes, runs: Runs, runs': Runs, b: nat, n: nat)
    requires CellsFree(nodes, runs) && b in runs && n <= |runs[b].offs| && Sound(runs[b])
    requires nodes'.Keys == nodes.Keys - CellsOf(b, runs[b].offs[..n])
    requires runs' == runs[b := Run(runs[b].log, runs[b].offs[n..])] || (n == |runs[b].offs| && runs' == runs - {b})
    ensures CellsFree(nodes', runs')
  {
    var offs := runs[b].offs;
    forall q ensures q in nodes' <==> Cell(runs', q) {
      if q.At? && q.block == b {
        assert offs == offs[..n] + offs[n..];
        assert q.offset in offs <==> q.offset in offs[..n] || q.offset in offs[n..];
        if q.offset in offs[..n] { NotTwice(offs, n, q.offset); }
      }
    }
  }

  // Linking in.

  /** The free fragments of a block with off linked in after the first. */
  function AfterFirst(offs: seq<nat>, off: nat): seq<nat>
    requires offs != []
  {
    [offs[0], off] + offs[1..]
  }

  lemma {:induction false} InsertRun(nodes: Nodes, order: seq<nat>, runs: Runs, log: nat, i: nat, off: nat)
    requires Has(runs, order) && i < |order| && runs[order[i]].offs != []
    requires Threaded(nodes, Full(log, order, runs)) && Distinct(Full(log, order, runs)) && At(order[i], off) !in nodes
    ensures var b := order[i]; var first := At(b, runs[b].offs[0]); var p := At(b, off);
      && first in nodes && (nodes[first].next != Null ==> nodes[first].next in nodes)
      && var nodes' := LinkAfter(nodes, first, p);
      && Threaded(nodes', WithRun(log, order, runs, i, AfterFirst(runs[b].offs, off)))
      && SameBut(nodes, nodes', Full(log, order, runs), p) && nodes'.Keys == nodes.Keys + {p}
  {
    hide LinkAfter, Full, WithRun, Chain, Distinct;
    var full, offs, p := Full(log, order, runs), runs[order[i]].offs, At(order[i], off);
    var at := RunAt(log, order, runs, i);
    forall k | 0 <= k < |full| ensures full[k] != p {
      assert Hooked(nodes, full, k);
    }
    LinkedAfter(nodes, full, at, p);
    PutInRun(log, order, runs, i, at, off);
  }

  lemma {:induction false} PutInRun(log: nat, order: seq<nat>, runs: Runs, i: nat, at: nat, off: nat)
    requires Has(runs, order) && i < |order| && runs[order[i]].offs != []
    requires at == |Full(log, order[..i], runs)| && at < |Full(log, order, runs)|
    requires WithRun(log, order, runs, i, runs[order[i]].offs) == Full(log, order, runs)
    ensures PutAfter(Full(log, order, runs), at, At(order[i], off))
         == WithRun(log, order, runs, i, AfterFirst(runs[order[i]].offs, off))
  {
    hide Full, Chain;
    var offs := runs[order[i]].offs;
    var x, z := Full(log, order[..i], runs), Chain(order[i + 1..], runs);
    var y, y' := Cells(order[i], offs), Cells(order[i], AfterFirst(offs, off));
    PutMiddle(x, y, y', z, At(order[i], off));
  }

  lemma {:induction false} PutMiddle(x: seq<Ptr>, y: seq<Ptr>, y': seq<Ptr>, z: seq<Ptr>, p: Ptr)
    requires y != [] && y' == [y[0], p] + y[1..]
    ensures PutAfter(x + y + z, |x|, p) == x + y' + z
  {
    var l, r := PutAfter(x + y + z, |x|, p), x + y' + z;
    forall j | 0 <= j < |l| ensures l[j] == r[j] {
      if j <= |x| {
        assert l[j] == (x + y + z)[j];
      } else if j > |x| + 1 {
        assert l[j] == (x + y + z)[j - 1];
      }
    }
  }

  /** Linking a fragment in after the first free one of its block. */
  lemma {:induction false} InsertLists(nodes: Nodes, order: seq<seq<nat>>, runs: Runs, log: nat, i: nat, off: nat)
    requires Lists(nodes, order, runs) && MINLOG <= log < BLOCKLOG && i < |order[log]| && Has(runs, order[log])
    requires runs[order[log][i]].offs != [] && Boundary(log, off) && off !in runs[order[log][i]].offs
    ensures var b := order[log][i]; var first := At(b, runs[b].offs[0]);
      && first in nodes && (nodes[first].next != Null ==> nodes[first].next in nodes)
      && Lists(LinkAfter(nodes, first, At(b, off)), order, runs[b := Run(log, AfterFirst(runs[b].offs, off))])
  {
    hide *;
    ListsIs(nodes, order, runs, log);
    var l, b := order[log], order[log][i];
    var offs := runs[b].offs;
    var first, p, runs' := At(b, offs[0]), At(b, off), runs[b := Run(log, AfterFirst(offs, off))];
    NotCell(nodes, runs, b, off);
    InsertRun(nodes, l, runs, log, i, off);
    var nodes' := LinkAfter(nodes, first, p);
    MoreOffs(offs, AfterFirst(offs, off), off, log);
    AddSound(runs, b, log, off, AfterFirst(offs, off));
    Replaced(nodes', l, runs, log, i, AfterFirst(offs, off));
    MineAt(runs, log, b, off);
    OwnCells(nodes, nodes', l, runs, log, p);
    OneBlock(runs, runs', b, log);
    SetList(nodes, nodes', order, runs, runs', runs, log, l);
    assert order[log := l] == order;
    AddCell(nodes, nodes', runs, b, log, off, AfterFirst(offs, off));
    NowLists(nodes', order, runs');
  }

  lemma {:induction false} MineAt(runs: Runs, log: nat, b: nat, off: nat)
    requires b in runs && runs[b].log == log
    ensures Mine(runs, log, At(b, off))
  {
  }

  lemma {:induction false} NotCell(nodes: Nodes, runs: Runs, b: nat, off: nat)
    requires CellsFree(nodes, runs) && b in runs && off !in runs[b].offs
    ensures At(b, off) !in nodes
  {
    assert !Cell(runs, At(b, off));
  }

  /** offs' is offs and one more. */
  ghost predicate OneMore(offs: seq<nat>, offs': seq<nat>, off: nat) {
    && offs' != [] && (Distinct(offs) ==> Distinct(offs'))
    && forall o :: o in offs' <==> o in offs || o == off
  }

  lemma {:induction false} MoreOffs(offs: seq<nat>, offs': seq<nat>, off: nat, log: nat)
    requires off !in offs && (offs' == [off] + offs || (offs != [] && offs' == AfterFirst(offs, off)))
    ensures OneMore(offs, offs', off)
  {
    if offs != [] && offs' == AfterFirst(offs, off) {
      assert offs == [offs[0]] + offs[1..];
      forall j, k | 0 <= j < k < |offs'| && Distinct(offs) ensures offs'[j] != offs'[k] {
        assert k > 1 ==> offs'[k] == offs[k - 1];
        assert j > 1 ==> offs'[j] == offs[j - 1];
      }
    }
  }

  lemma {:induction false} AddSound(runs: Runs, b: nat, log: nat, off: nat, offs': seq<nat>)
    requires AllSound(runs) && b in runs && runs[b].log == log && Boundary(log, off) && OneMore(runs[b].offs, offs', off)
    ensures AllSound(runs[b := Run(log, offs')])
  {
    hide Boundary;
    assert Sound(runs[b]);
    forall i | 0 <= i < |offs'| ensures Boundary(log, offs'[i]) {
      assert offs'[i] in offs';
      if offs'[i] != off {
        var j :| 0 <= j < |runs[b].offs| && runs[b].offs[j] == offs'[i];
      }
    }
  }

  lemma {:induction false} AddCell(nodes: Nodes, nodes': Nodes, runs: Runs, b: nat, log: nat, off: nat, offs': seq<nat>)
    requires CellsFree(nodes, runs) && b in runs && OneMore(runs[b].offs, offs', off)
    requires nodes'.Keys == nodes.Keys + {At(b, off)}
    ensures CellsFree(nodes', runs[b := Run(log, offs')])
  {
    hide Distinct;
    forall q ensures q in nodes' <==> Cell(runs[b := Run(log, offs')], q) {
      assert q in nodes <==> Cell(runs, q);
    }
  }

  // Linking in at the front.

  /** The list after a fragment of b, which heads it or is not on it, is linked
      in at the front. */
  function ToFrontOf(order: seq<nat>, b: nat): seq<nat> {
    if order != [] && order[0] == b then order else [b] + order
  }

  /** Linking a fragment in at the head of its list. */
  lemma {:induction false} PushLists(nodes: Nodes, order: seq<seq<nat>>, runs: Runs, log: nat, b: nat, off: nat)
    requires Lists(nodes, order, runs) && MINLOG <= log < BLOCKLOG && b in runs && runs[b].log == log
    requires runs[b].offs == [] || (order[log] != [] && order[log][0] == b)
    requires Boundary(log, off) && off !in runs[b].offs
    ensures Head(log) in nodes && (nodes[Head(log)].next != Null ==> nodes[Head(log)].next in nodes)
    ensures Lists(LinkAfter(nodes, Head(log), At(b, off)), order[log := ToFrontOf(order[log], b)],
                  runs[b := Run(log, [off] + runs[b].offs)])
  {
    hide *;
    ListsIs(nodes, order, runs, log);
    var l, offs, p := order[log], runs[b].offs, At(b, off);
    var full, runs' := Full(log, l, runs), runs[b := Run(log, [off] + runs[b].offs)];
    NotCell(nodes, runs, b, off);
    PushLinked(nodes, log, l, runs, p);
    var nodes' := LinkAfter(nodes, Head(log), p);
    MoreOffs(offs, [off] + offs, off, log);
    AddSound(runs, b, log, off, [off] + offs);
    PushOk(nodes', l, runs, log, b, off);
    MineAt(runs, log, b, off);
    OwnCells(nodes, nodes', l, runs, log, p);
    OneBlock(runs, runs', b, log);
    SetList(nodes, nodes', order, runs, runs', runs, log, ToFrontOf(l, b));
    AddCell(nodes, nodes', runs, b, log, off, [off] + offs);
    NowLists(nodes', order[log := ToFrontOf(l, b)], runs');
  }

  lemma {:induction false} PushLinked(nodes: Nodes, log: nat, order: seq<nat>, runs: Runs, p: Ptr)
    requires Has(runs, order) && Threaded(nodes, Full(log, order, runs)) && Distinct(Full(log, order, runs))
    requires p !in nodes && p != Null
    ensures Head(log) in nodes && (nodes[Head(log)].next != Null ==> nodes[Head(log)].next in nodes)
    ensures var nodes' := LinkAfter(nodes, Head(log), p);
      && Threaded(nodes', [Head(log), p] + Chain(order, runs))
      && SameBut(nodes, nodes', Full(log, order, runs), p) && nodes'.Keys == nodes.Keys + {p}
  {
    hide LinkAfter, Distinct, Chain;
    var full := Full(log, order, runs);
    assert Hooked(nodes, full, 0);
    forall k | 0 <= k < |full| ensures full[k] != p {
      assert Hooked(nodes, full, k);
    }
    LinkedAfter(nodes, full, 0, p);
    assert PutAfter(full, 0, p) == [Head(log), p] + Chain(order, runs);
  }

  lemma {:induction false} PushOk(nodes': Nodes, order: seq<nat>, runs: Runs, log: nat, b: nat, off: nat)
    requires Distinct(order) && Has(runs, order) && b in runs && runs[b].log == log
    requires forall j :: 0 <= j < |order| ==> runs[order[j]].log == log && runs[order[j]].offs != []
    requires forall c :: c in runs && runs[c].log == log && runs[c].offs != [] ==> c in order
    requires runs[b].offs == [] || (order != [] && order[0] == b)
    requires Threaded(nodes', [Head(log), At(b, off)] + Chain(order, runs))
    ensures ListOk(nodes', ToFrontOf(order, b), runs[b := Run(log, [off] + runs[b].offs)], log)
  {
    hide ListOk, Threaded, Distinct;
    if runs[b].offs == [] {
      assert [Head(log), At(b, off)] + Chain(order, runs) == [Head(log)] + Cells(b, [off]) + Chain(order, runs);
      Fronted(nodes', order, runs, log, b, [off]);
      assert [off] + runs[b].offs == [off];
    } else {
      assert Cells(b, [off] + runs[b].offs) == [At(b, off)] + Cells(b, runs[b].offs);
      assert order[..0] == [];
      assert [Head(log), At(b, off)] + Chain(order, runs) == WithRun(log, order, runs, 0, [off] + runs[b].offs);
      Replaced(nodes', order, runs, log, 0, [off] + runs[b].offs);
    }
  }

  /** A block newly cut into fragments, none of them free yet. */
  lemma {:induction false} FreshRun(nodes: Nodes, order: seq<seq<nat>>, runs: Runs, log: nat, b: nat)
    requires Lists(nodes, order, runs) && MINLOG <= log < BLOCKLOG && b !in runs
    ensures Lists(nodes, order, runs[b := Run(log, [])])
  {
    var runs' := runs[b := Run(log, [])];
    assert Sound(Run(log, []));
    forall log' | MINLOG <= log' < BLOCKLOG ensures ListOk(nodes, order[log'], runs', log') {
      ChainSame(order[log'], runs, runs');
    }
    forall q ensures q in nodes <==> Cell(runs', q) {
      assert q in nodes <==> Cell(runs, q);
    }
  }

  // ------------------------------------------------------------ counting blocks

  lemma {:induction false} BlocksSame(runs: Runs, b: nat, offs: seq<nat>, log: nat)
    requires b in runs
    ensures Blocks(runs[b := Run(runs[b].log, offs)], log) == Blocks(runs, log)
  {
  }

  lemma {:induction false} BlocksAdded(runs: Runs, b: nat, offs: seq<nat>, log: nat, log': nat)
    requires b !in runs
    ensures |Blocks(runs[b := Run(log, offs)], log')| == |Blocks(runs, log')| + (if log' == log then 1 else 0)
  {
    var runs' := runs[b := Run(log, offs)];
    assert Blocks(runs', log') == if log' == log then Blocks(runs, log') + {b} else Blocks(runs, log');
  }

  lemma {:induction false} BlocksRemoved(runs: Runs, b: nat, log': nat)
    requires b in runs
    ensures |Blocks(runs, log')| == |Blocks(runs - {b}, log')| + (if log' == runs[b].log then 1 else 0)
  {
    assert Blocks(runs, log') == if log' == runs[b].log then Blocks(runs - {b}, log') + {b} else Blocks(runs - {b}, log');
  }

  /** ptr % BLOCKSIZE >> log */
  function NumberOf(log: nat, off: nat): nat {
    Whole(off, Size(log));
    off / Size(log)
  }

  lemma {:induction false} Whole(a: nat, m: nat)
    requires m > 0
    ensures a / m >= 0
  {
  }

  /** The numbers of a block's free fragments and of one that is in use. */
  lemma {:induction false} Numbers(r: Run, off: nat) returns (p: seq<nat>)
    requires Sound(r) && Boundary(r.log, off) && off !in r.offs
    ensures |p| == |r.offs| + 1 && Distinct(p) && forall i :: 0 <= i < |p| ==> p[i] < PerBlock(r.log)
    ensures forall o :: Boundary(r.log, o) ==> (NumberOf(r.log, o) in p <==> o == off || o in r.offs)
  {
    hide Size, Boundary, PerBlock;
    var s := Size(r.log);
    var all := r.offs + [off];
    p := seq(|all|, i requires 0 <= i < |all| => NumberOf(r.log, all[i]));
    forall i | 0 <= i < |all| ensures Boundary(r.log, all[i]) && p[i] < PerBlock(r.log) && p[i] * s == all[i] {
      Index(r.log, all[i]);
    }
    forall i, j | 0 <= i < j < |all| ensures p[i] != p[j] {
      assert all[i] != all[j];
    }
    forall o | Boundary(r.log, o) ensures NumberOf(r.log, o) in p <==> o == off || o in r.offs {
      Index(r.log, o);
      if i :| 0 <= i < |p| && p[i] == NumberOf(r.log, o) {
        assert all[i] == o;
      }
      assert all[|r.offs|] == off && all[..|r.offs|] == r.offs;
      if o in all {
        var i :| 0 <= i < |all| && all[i] == o;
        assert p[i] == NumberOf(r.log, o);
      }
    }
  }

  /** All fragments but one are free exactly when that one is the only one in use. */
  lemma {:induction false} OnlyInUse(r: Run, off: nat)
    requires Sound(r) && Boundary(r.log, off) && off !in r.offs
    ensures |r.offs| == PerBlock(r.log) - 1 <==> forall o :: Boundary(r.log, o) && o != off ==> o in r.offs
  {
    hide Size, Boundary, PerBlock, Distinct;
    var s, n := Size(r.log), PerBlock(r.log);
    var p := Numbers(r, off);
    DistinctSize(p);
    SubsetSize(Elements(p), Below(n));
    if |p| == n {
      forall o | Boundary(r.log, o) && o != off ensures o in r.offs {
        Index(r.log, o);
        assert NumberOf(r.log, o) in Below(n);
      }
    }
    if forall o :: Boundary(r.log, o) && o != off ==> o in r.offs {
      forall i | i in Below(n) ensures i in Elements(p) {
        IndexBack(r.log, i);
      }
      assert Elements(p) == Below(n);
    }
  }

  /** Fragment number off / size. */
  lemma {:induction false} Index(log: nat, off: nat)
    requires log <= BLOCKLOG && Boundary(log, off)
    ensures Size(log) > 0 && off / Size(log) < PerBlock(log) && off / Size(log) * Size(log) == off
  {
    Fills(log);
    hide Size, PerBlock;
    Exact(off, Size(log), PerBlock(log));
  }

  lemma {:induction false} Exact(a: nat, m: nat, n: nat)
    requires m > 0 && a % m == 0 && a < n * m
    ensures a / m < n && a / m * m == a
  {
    MulLess(n, a / m + 1, m);
  }

  lemma {:induction false} IndexBack(log: nat, i: nat)
    requires log <= BLOCKLOG && i < PerBlock(log)
    ensures Size(log) > 0 && Boundary(log, i * Size(log)) && i * Size(log) / Size(log) == i
  {
    Fills(log);
    hide Size, PerBlock;
    DivModUnique(i * Size(log), Size(log), i, 0);
    MulLess(i, PerBlock(log), Size(log));
  }

}
