/** The lookup tables of inflate: a table is indexed by the next bits of the
    stream, and an entry either ends a code or leads to a further table. */
module HuftTables {
  import opened Bits
  import opened CodeSpace

  /** struct huft: an entry never written, a code's end, or a further table.
      Tables are numbered in the order in which they were allocated. */
  datatype Entry =
    | Unset
    | Leaf(b: nat, e: nat, n: nat)
    | Link(b: nat, bits: nat, table: nat)

  type Pool = seq<seq<Entry>>

  /** What a code stands for: extra bits or an operation, and a value. */
  datatype Op = Op(e: nat, n: nat)

  /** The code set, the bits per table, and what each code stands for. */
  datatype Space = Space(c: Counts, g: nat, l: nat, ops: seq<Op>) {
    ghost predicate Ok() {
      Complete(c, g) && 1 <= l <= g && |ops| >= Num(c, g)
    }
  }

  /** Bits looked at before level h. */
  function Depth(l: nat, h: nat): nat {
    if h == 0 then 0 else Depth(l, h - 1) + l
  }

  lemma {:induction false} DepthMono(l: nat, h: nat, h': nat)
    requires h < h'
    ensures Depth(l, h) + l <= Depth(l, h')
  {
    if h + 1 < h' { DepthMono(l, h, h' - 1); }
  }

  /** A table: its level, the bits that lead to it, and the bits it looks at. */
  datatype Meta = Meta(h: nat, pv: nat, j: nat)

  /** Where the strings begin that lead to this table, and where they end. */
  function Base(g: nat, w: nat, pv: nat): nat
    requires w <= g
  {
    pv * Pow2(g - w)
  }

  /** Codes run past the table's l bits although none ends before them: such a
      table gets more than l bits. */
  ghost predicate Wide(s: Space, t: Meta)
    requires s.Ok()
  {
    var w := Depth(s.l, t.h);
    w + s.l < s.g && Used(s.c, s.g, w + s.l - 1) <= Base(s.g, w, t.pv) && Used(s.c, s.g, w + s.l) < Base(s.g, w, t.pv + 1)
  }

  ghost predicate TableOk(s: Space, t: Meta)
    requires s.Ok()
  {
    var w := Depth(s.l, t.h);
    && w + t.j <= s.g && 1 <= t.j && t.pv < Pow2(w)
    && LenAt(s.c, s.g, Base(s.g, w, t.pv)) > w
    && (t.j >= s.l || Base(s.g, w, t.pv + 1) <= Used(s.c, s.g, w + t.j))
    && (if t.h == 0 then t.j >= s.l else t.j > s.l <==> Wide(s, t))
  }

  /** The first string that leads to cell m. */
  function CellStart(g: nat, w: nat, pv: nat, j: nat, m: nat): nat
    requires w + j <= g
  {
    (pv * Pow2(j) + Rev(m, j)) * Pow2(g - w - j)
  }

  /** The first bits of that string are those of the prefix and then the low bits
      of the cell's number, lowest first. */
  lemma {:induction false} StartBlock(g: nat, w: nat, pv: nat, j: nat, m: nat, b: nat)
    requires w + j <= g && b <= j
    ensures Block(g, CellStart(g, w, pv, j, m), w + b) == pv * Pow2(b) + Rev(m % Pow2(b), b)
  {
    hide Rev, Pow2;
    var x, p, r := pv * Pow2(j) + Rev(m, j), Pow2(g - w - j), Rev(Quotient(m, Pow2(b)), j - b);
    RevSplit(m, j - b, b);
    Pow2Add(b, j - b);
    Pow2Add(g - w - j, j - b);
    assert g - w - j + (j - b) == g - (w + b) && b + (j - b) == j - b + b == j;
    RevBound(Quotient(m, Pow2(b)), j - b);
    Regroup(pv, Pow2(b), Pow2(j - b), Rev(m % Pow2(b), b), r);
    DivModUnique(x, Pow2(j - b), pv * Pow2(b) + Rev(m % Pow2(b), b), r);
    DivDiv(x * p, p, Pow2(j - b));
    DivModUnique(x * p, p, x, 0);
  }

  lemma {:induction false} RevBound(v: nat, n: nat)
    ensures Rev(v, n) < Pow2(n) && Pow2(n) > 0
  {
  }

  lemma {:induction false} Regroup(a: nat, p: nat, q: nat, x: nat, r: nat)
    ensures a * (p * q) + (x * q + r) == (a * p + x) * q + r
  {
    assert a * (p * q) == (a * p) * q;
    assert (a * p + x) * q == (a * p) * q + x * q;
  }

  /** The string starts with the table's prefix, and is one of g bits. */
  lemma {:induction false} StartIn(g: nat, w: nat, pv: nat, j: nat, m: nat)
    requires w + j <= g && pv < Pow2(w)
    ensures Block(g, CellStart(g, w, pv, j, m), w) == pv && CellStart(g, w, pv, j, m) < Pow2(g)
  {
    StartBlock(g, w, pv, j, m, 0);
    Pow2Zero(0);
    Pow2Zero(m);
    BlockBound(g, CellStart(g, w, pv, j, m), w);
  }

  /** A cell whose number fits in l bits starts where those l bits do. */
  lemma {:induction false} StartLow(g: nat, w: nat, pv: nat, j: nat, m: nat, l: nat)
    requires w + j <= g && l <= j && m < Pow2(l)
    ensures CellStart(g, w, pv, j, m) == (pv * Pow2(l) + Rev(m, l)) * Pow2(g - (w + l))
    ensures Block(g, CellStart(g, w, pv, j, m), w + l) == pv * Pow2(l) + Rev(m, l)
  {
    hide Rev, Pow2;
    RevLow(m, j, l);
    Pow2Add(l, j - l);
    Pow2Add(j - l, g - w - j);
    assert l + (j - l) == j && j - l + (g - w - j) == g - (w + l);
    RegroupAll(pv, Pow2(l), Pow2(j - l), Rev(m, l), Pow2(g - w - j));
    StartBlock(g, w, pv, j, m, l);
  }

  lemma {:induction false} RevLow(m: nat, j: nat, l: nat)
    requires l <= j && m < Pow2(l)
    ensures Rev(m, j) == Rev(m, l) * Pow2(j - l) && m % Pow2(l) == m
  {
    hide Rev, Pow2;
    RevSplit(m, j - l, l);
    SmallMod(m, Pow2(l));
    RevZero(j - l);
  }

  lemma {:induction false} RegroupAll(a: nat, p: nat, q: nat, x: nat, r: nat)
    ensures (a * (p * q) + x * q) * r == (a * p + x) * (q * r)
  {
    Regroup(a, p, q, x, 0);
    assert ((a * p + x) * q) * r == (a * p + x) * (q * r);
  }

  // -------------------------------------------------------------- what cells hold

  /** Cell m of table t, once the codes up to its strings are in. */
  ghost predicate CellOk(s: Space, metas: seq<Meta>, t: Meta, m: nat, x: Entry)
    requires s.Ok() && TableOk(s, t)
  {
    var w := Depth(s.l, t.h);
    var v := CellStart(s.g, w, t.pv, t.j, m);
    var k := LenAt(s.c, s.g, v);
    if k <= w + s.l then
      1 <= k && w <= k && 0 <= SlotAt(s.c, s.g, v) < |s.ops|
      && x == Leaf(k - w, s.ops[SlotAt(s.c, s.g, v)].e, s.ops[SlotAt(s.c, s.g, v)].n)
    else if m < Pow2(s.l) then
      x.Link? && x.b == s.l && x.table < |metas| && metas[x.table] == Meta(t.h + 1, t.pv * Pow2(s.l) + Rev(m, s.l), x.bits)
    else x == Unset
  }

  /** The cell has its final content when the codes below pos are in and the
      tables down to level h have been made for the one at pos. */
  ghost predicate Done(v: nat, t: Meta, pos: nat, h: int) {
    v < pos || (v == pos && t.h < h)
  }

  ghost predicate CellState(s: Space, metas: seq<Meta>, t: Meta, m: nat, x: Entry, pos: nat, h: int)
    requires s.Ok() && TableOk(s, t)
  {
    if Done(CellStart(s.g, Depth(s.l, t.h), t.pv, t.j, m), t, pos, h) then CellOk(s, metas, t, m, x) else x == Unset
  }

  ghost predicate Tables(s: Space, pool: Pool, metas: seq<Meta>)
    requires s.Ok()
  {
    && |pool| == |metas|
    && forall q :: 0 <= q < |pool| ==> TableOk(s, metas[q]) && |pool[q]| == Pow2(metas[q].j)
  }

  ghost predicate Filled(s: Space, pool: Pool, metas: seq<Meta>, pos: nat, h: int)
    requires s.Ok() && Tables(s, pool, metas)
  {
    forall q, m :: 0 <= q < |pool| && 0 <= m < |pool[q]| ==> CellState(s, metas, metas[q], m, pool[q][m], pos, h)
  }

  /** All strings that lead to the table are below pos. */
  ghost predicate Over(s: Space, t: Meta, pos: nat)
    requires s.Ok() && TableOk(s, t)
  {
    Base(s.g, Depth(s.l, t.h), t.pv + 1) <= pos
  }

  /** The table is the one on the stack for pos at its level. */
  ghost predicate Current(s: Space, metas: seq<Meta>, u: seq<nat>, pos: nat, h: int, q: nat)
    requires s.Ok() && q < |metas| && TableOk(s, metas[q])
  {
    var t := metas[q];
    t.h <= h && t.h < |u| && u[t.h] == q && Block(s.g, pos, Depth(s.l, t.h)) == t.pv
  }

  /** The stack leads to pos, and every other table is finished. */
  ghost predicate Stack(s: Space, pool: Pool, metas: seq<Meta>, u: seq<nat>, pos: nat, h: int)
    requires s.Ok() && Tables(s, pool, metas)
  {
    && h < |u|
    && (forall e :: 0 <= e <= h ==> u[e] < |metas| && metas[u[e]].h == e && Current(s, metas, u, pos, h, u[e]))
    && (forall q :: 0 <= q < |metas| ==> Over(s, metas[q], pos) || Current(s, metas, u, pos, h, q))
  }

  /** Every code through the table is longer than the bits that lead to it. */
  lemma {:induction false} CellLen(s: Space, t: Meta, v: nat)
    requires s.Ok() && TableOk(s, t) && Block(s.g, v, Depth(s.l, t.h)) == t.pv
    ensures v < Pow2(s.g) && LenAt(s.c, s.g, v) > Depth(s.l, t.h)
    ensures t.j < s.l ==> LenAt(s.c, s.g, v) <= Depth(s.l, t.h) + t.j
  {
    hide LenAt, Block, Base, Used;
    var w := Depth(s.l, t.h);
    BaseIs(s.g, w, t.pv, v);
    BlockBound(s.g, v, w);
    BlockBound(s.g, Base(s.g, w, t.pv), w);
    BlockDeep(s.c, s.g, Base(s.g, w, t.pv), v, w);
    LongerAbove(s.c, s.g, v, w + t.j);
  }

  lemma {:induction false} BaseIs(g: nat, w: nat, pv: nat, v: nat)
    requires w <= g
    ensures Block(g, v, w) == pv <==> Base(g, w, pv) <= v < Base(g, w, pv + 1)
    ensures Block(g, Base(g, w, pv), w) == pv
  {
    BlockIs(g, v, w, pv);
    BlockIs(g, Base(g, w, pv), w, pv);
    assert (pv + 1) * Pow2(g - w) == pv * Pow2(g - w) + Pow2(g - w);
  }

  // ------------------------------------------------------------- storing a code

  /** The cells that belong to the code at pos: their low bits are the code's
      remaining bits, reversed. */
  lemma {:induction false} InCode(g: nat, w: nat, pv: nat, j: nat, m: nat, pos: nat, k: nat)
    requires w <= k <= w + j <= g && Block(g, pos, w) == pv
    ensures Block(g, CellStart(g, w, pv, j, m), k) == Block(g, pos, k)
       <==> m % Pow2(k - w) == Rev(Block(g, pos, k) % Pow2(k - w), k - w)
  {
    hide Rev, Pow2, Block, CellStart;
    var b, y := k - w, Block(g, pos, k) % Pow2(k - w);
    StartBlock(g, w, pv, j, m, b);
    assert w + b == k;
    BlockCoarser(g, pos, w, k);
    SplitValue(Block(g, pos, k), Pow2(b));
    RevRev(y, b);
    SmallMod(y, Pow2(b));
    RevRev(m % Pow2(b), b);
    SmallMod(m % Pow2(b), Pow2(b));
  }

  lemma {:induction false} SplitValue(a: nat, m: nat)
    requires m > 0
    ensures a == a / m * m + a % m && a % m < m
  {
  }

  /** The leaf that the code at pos gets in table t. */
  ghost predicate LeafFor(s: Space, t: Meta, pos: nat, x: Entry)
    requires s.Ok() && pos < Pow2(s.g)
  {
    var w, k := Depth(s.l, t.h), LenAt(s.c, s.g, pos);
    && 1 <= k && w <= k && 0 <= SlotAt(s.c, s.g, pos) < |s.ops|
    && x == Leaf(k - w, s.ops[SlotAt(s.c, s.g, pos)].e, s.ops[SlotAt(s.c, s.g, pos)].n)
  }

  /** pos is where the code at pos starts. */
  ghost predicate AtCode(s: Space, pos: nat)
    requires s.Ok()
  {
    pos < Pow2(s.g) && pos == Block(s.g, pos, LenAt(s.c, s.g, pos)) * Pow2(s.g - LenAt(s.c, s.g, pos))
  }

  function After(s: Space, pos: nat): nat {
    if s.g <= BMAX then pos + Pow2(s.g - LenAt(s.c, s.g, pos)) else pos
  }

  lemma {:induction false} CodeSpan(s: Space, pos: nat, v: nat)
    requires s.Ok() && AtCode(s, pos)
    ensures Block(s.g, v, LenAt(s.c, s.g, pos)) == Block(s.g, pos, LenAt(s.c, s.g, pos)) <==> pos <= v < After(s, pos)
    ensures pos < After(s, pos) <= Pow2(s.g)
  {
    hide LenAt, Block, Pow2, Used;
    LenAtIs(s.c, s.g, pos);
    var k := LenAt(s.c, s.g, pos);
    var b, p := Block(s.g, pos, k), Pow2(s.g - k);
    BlockIs(s.g, v, k, b);
    OneMore(b, p);
    BlockBound(s.g, pos, k);
    Pow2Add(k, s.g - k);
    MulLess(b, Pow2(k), p);
  }

  lemma {:induction false} OneMore(b: nat, p: nat)
    ensures (b + 1) * p == b * p + p
  {
  }

  /** Cells of the table the code goes into. */
  lemma {:induction false} LeafTop(s: Space, metas: seq<Meta>, t: Meta, m: nat, x: Entry, leaf: Entry, pos: nat, h: int, hh: int)
    requires s.Ok() && TableOk(s, t) && t.h == h && AtCode(s, pos) && Block(s.g, pos, Depth(s.l, t.h)) == t.pv
    requires LenAt(s.c, s.g, pos) <= Depth(s.l, t.h) + s.l && LeafFor(s, t, pos, leaf)
    requires CellState(s, metas, t, m, x, pos, h) && hh <= h
    ensures var v := CellStart(s.g, Depth(s.l, t.h), t.pv, t.j, m); var k := LenAt(s.c, s.g, pos);
      CellState(s, metas, t, m, if Block(s.g, v, k) == Block(s.g, pos, k) then leaf else x, After(s, pos), hh)
  {
    hide LenAt, Block, CellStart, After, SlotAt, Pow2, AtCode;
    var v, k := CellStart(s.g, Depth(s.l, t.h), t.pv, t.j, m), LenAt(s.c, s.g, pos);
    CodeSpan(s, pos, v);
    AtCodeIs(s, pos);
    LenAtIs(s.c, s.g, pos);
    StartIn(s.g, Depth(s.l, t.h), t.pv, t.j, m);
    if Block(s.g, v, k) == Block(s.g, pos, k) {
      SameCode(s.c, s.g, pos, v);
    }
  }

  lemma {:induction false} AtCodeIs(s: Space, pos: nat)
    requires s.Ok() && AtCode(s, pos)
    ensures pos < Pow2(s.g)
  {
  }

  /** Cells of finished tables. */
  lemma {:induction false} LeafOver(s: Space, metas: seq<Meta>, t: Meta, m: nat, x: Entry, pos: nat, h: int, pos': nat, hh: int)
    requires s.Ok() && TableOk(s, t) && Over(s, t, pos) && CellState(s, metas, t, m, x, pos, h) && pos <= pos'
    ensures CellState(s, metas, t, m, x, pos', hh)
  {
    hide LenAt, Block, CellStart, SlotAt, Pow2, CellOk, Base;
    var w := Depth(s.l, t.h);
    var v := CellStart(s.g, w, t.pv, t.j, m);
    StartIn(s.g, w, t.pv, t.j, m);
    BaseIs(s.g, w, t.pv, v);
  }

  /** A cell numbered within l bits, of a table on the stack, starts no later than
      pos if it leads to where pos lies. */
  lemma {:induction false} NotPast(g: nat, w: nat, pv: nat, j: nat, m: nat, l: nat, pos: nat)
    requires w + j <= g && l <= j && m < Pow2(l)
    requires Block(g, CellStart(g, w, pv, j, m), w + l) == Block(g, pos, w + l)
    ensures CellStart(g, w, pv, j, m) <= pos
  {
    hide CellStart, Rev;
    StartLow(g, w, pv, j, m, l);
    BlockIs(g, pos, w + l, pv * Pow2(l) + Rev(m, l));
  }

  /** Cells of the tables further down the stack: those the code covers are the
      ones that stay unset, if any. */
  lemma {:induction false} LeafBelow(s: Space, metas: seq<Meta>, t: Meta, m: nat, x: Entry, pos: nat, h: int, hh: int)
    requires s.Ok() && TableOk(s, t) && t.h < h && AtCode(s, pos) && Block(s.g, pos, Depth(s.l, t.h)) == t.pv
    requires LenAt(s.c, s.g, pos) > Depth(s.l, t.h) + s.l && CellState(s, metas, t, m, x, pos, h)
    requires After(s, pos) < Pow2(s.g) && t.h < hh && Depth(s.l, t.h) + s.l <= s.g ==>
      Block(s.g, After(s, pos), Depth(s.l, t.h) + s.l) == Block(s.g, pos, Depth(s.l, t.h) + s.l)
    ensures CellState(s, metas, t, m, x, After(s, pos), hh)
  {
    hide LenAt, Block, CellStart, After, SlotAt, Pow2, AtCode;
    var w, k := Depth(s.l, t.h), LenAt(s.c, s.g, pos);
    var v := CellStart(s.g, w, t.pv, t.j, m);
    CodeSpan(s, pos, v);
    AtCodeIs(s, pos);
    LenAtIs(s.c, s.g, pos);
    StartIn(s.g, w, t.pv, t.j, m);
    if pos < v <= After(s, pos) && (v < After(s, pos) || t.h < hh) {
      if v < After(s, pos) {
        BlockSame(s.g, pos, v, w + s.l, k);
      }
      assert Block(s.g, v, w + s.l) == Block(s.g, pos, w + s.l);
      BlockDeep(s.c, s.g, pos, v, w + s.l);
      CellLen(s, t, v);
      if m < Pow2(s.l) {
        NotPast(s.g, w, t.pv, t.j, m, s.l, pos);
      }
    }
  }

  // ------------------------------------------------------------ a further table

  /** Different cells start at different strings. */
  lemma {:induction false} StartInjective(g: nat, w: nat, pv: nat, j: nat, m: nat, m': nat)
    requires w + j <= g && m < Pow2(j) && m' < Pow2(j) && CellStart(g, w, pv, j, m) == CellStart(g, w, pv, j, m')
    ensures m == m'
  {
    hide Rev, Pow2;
    var p := Pow2(g - w - j);
    MulLess(pv * Pow2(j) + Rev(m, j), pv * Pow2(j) + Rev(m', j), p);
    MulLess(pv * Pow2(j) + Rev(m', j), pv * Pow2(j) + Rev(m, j), p);
    RevInjective(m, m', j);
  }

  /** pos is where a prefix of d bits starts. */
  ghost predicate AtBlock(g: nat, pos: nat, d: nat)
    requires d <= g
  {
    pos == Block(g, pos, d) * Pow2(g - d)
  }

  /** The cell through which the table at level h leads to pos. */
  function LinkCell(s: Space, pos: nat, d: nat): nat
    requires d <= s.g
  {
    Rev(Block(s.g, pos, d) % Pow2(s.l), s.l)
  }

  lemma {:induction false} LinkCellIs(s: Space, t: Meta, pos: nat)
    requires s.Ok() && TableOk(s, t) && pos < Pow2(s.g) && Block(s.g, pos, Depth(s.l, t.h)) == t.pv
    requires LenAt(s.c, s.g, pos) > Depth(s.l, t.h) + s.l && AtBlock(s.g, pos, Depth(s.l, t.h) + s.l)
    ensures var m := LinkCell(s, pos, Depth(s.l, t.h) + s.l);
      && m < Pow2(s.l) <= Pow2(t.j) && s.l <= t.j
      && CellStart(s.g, Depth(s.l, t.h), t.pv, t.j, m) == pos
      && t.pv * Pow2(s.l) + Rev(m, s.l) == Block(s.g, pos, Depth(s.l, t.h) + s.l)
  {
    hide LenAt, Block, CellStart, Pow2, Rev;
    var w, l := Depth(s.l, t.h), s.l;
    var y := Block(s.g, pos, w + l);
    CellLen(s, t, pos);
    Pow2Mono(l, t.j);
    BlockCoarser(s.g, pos, w, w + l);
    SplitValue(y, Pow2(l));
    RevRev(y % Pow2(l), l);
    SmallMod(y % Pow2(l), Pow2(l));
    var m := LinkCell(s, pos, w + l);
    RevBound(y % Pow2(l), l);
    StartLow(s.g, w, t.pv, t.j, m, l);
  }

  /** More tables known: what cells hold stays right. */
  lemma {:induction false} CellKept(s: Space, metas: seq<Meta>, metas': seq<Meta>, t: Meta, m: nat, x: Entry)
    requires s.Ok() && TableOk(s, t) && CellOk(s, metas, t, m, x) && metas <= metas'
    ensures CellOk(s, metas', t, m, x)
  {
    hide LenAt, CellStart, SlotAt;
  }

  lemma {:induction false} FitsSpace(s: Space, t: Meta)
    requires s.Ok() && TableOk(s, t)
    ensures Depth(s.l, t.h) + t.j <= s.g
  {
  }

  lemma {:induction false} CreateTop(s: Space, metas: seq<Meta>, t: Meta, m: nat, x: Entry, pos: nat, h: int, j: nat)
    requires s.Ok() && TableOk(s, t) && t.h == h && m < Pow2(t.j) && CellState(s, metas, t, m, x, pos, h)
    requires pos < Pow2(s.g) && Block(s.g, pos, Depth(s.l, t.h)) == t.pv
    requires LenAt(s.c, s.g, pos) > Depth(s.l, t.h) + s.l && AtBlock(s.g, pos, Depth(s.l, t.h) + s.l)
    ensures var d := Depth(s.l, t.h) + s.l;
      CellState(s, metas + [Meta(t.h + 1, Block(s.g, pos, d), j)], t, m,
                if m == LinkCell(s, pos, d) then Link(s.l, j, |metas|) else x, pos, h + 1)
  {
    hide LenAt, Block, CellStart, SlotAt, Pow2, Rev, AtBlock, TableOk, LinkCell;
    var w := Depth(s.l, t.h);
    var metas' := metas + [Meta(t.h + 1, Block(s.g, pos, w + s.l), j)];
    LinkCellIs(s, t, pos);
    FitsSpace(s, t);
    var m0 := LinkCell(s, pos, w + s.l);
    var v := CellStart(s.g, w, t.pv, t.j, m);
    if v == pos {
      StartInjective(s.g, w, t.pv, t.j, m, m0);
      assert metas'[|metas|] == Meta(t.h + 1, Block(s.g, pos, w + s.l), j);
    } else if v < pos {
      CellKept(s, metas, metas', t, m, x);
    }
  }

  lemma {:induction false} CreateOther(s: Space, metas: seq<Meta>, metas': seq<Meta>, t: Meta, m: nat, x: Entry, pos: nat, h: int)
    requires s.Ok() && TableOk(s, t) && CellState(s, metas, t, m, x, pos, h) && metas <= metas'
    requires Over(s, t, pos) || t.h < h
    ensures CellState(s, metas', t, m, x, pos, h + 1)
  {
    hide LenAt, Block, CellStart, SlotAt, Pow2, CellOk, Base;
    var w := Depth(s.l, t.h);
    var v := CellStart(s.g, w, t.pv, t.j, m);
    StartIn(s.g, w, t.pv, t.j, m);
    BaseIs(s.g, w, t.pv, v);
    if Done(v, t, pos, h) {
      CellKept(s, metas, metas', t, m, x);
    }
  }

  lemma {:induction false} CreateNew(s: Space, metas: seq<Meta>, t: Meta, m: nat, pos: nat)
    requires s.Ok() && TableOk(s, t) && Block(s.g, pos, Depth(s.l, t.h)) == t.pv && AtBlock(s.g, pos, Depth(s.l, t.h))
    ensures CellState(s, metas, t, m, Unset, pos, t.h)
  {
    hide LenAt, Block, CellStart, SlotAt, Pow2, CellOk;
    var w := Depth(s.l, t.h);
    StartIn(s.g, w, t.pv, t.j, m);
    BaseIs(s.g, w, t.pv, CellStart(s.g, w, t.pv, t.j, m));
  }

  function Blank(n: nat): (r: seq<Entry>)
    ensures |r| == n && forall i :: 0 <= i < n ==> r[i] == Unset
  {
    seq(n, _ => Unset)
  }

  /** The tables once a further one hangs off cell m of table q. */
  function WithTable(pool: Pool, q: nat, m: nat, x: Entry, j: nat): (r: Pool)
    requires q < |pool| && m < |pool[q]|
    ensures |r| == |pool| + 1 && r[|pool|] == Blank(Pow2(j))
    ensures forall i :: 0 <= i < |pool| ==> r[i] == if i == q then pool[q][m := x] else pool[i]
  {
    pool[q := pool[q][m := x]] + [Blank(Pow2(j))]
  }

  /** Making the table for the next l bits at pos. */
  lemma {:induction false} CreateStep(s: Space, pool: Pool, metas: seq<Meta>, u: seq<nat>, pos: nat, h: nat, j: nat)
    requires s.Ok() && Tables(s, pool, metas) && Filled(s, pool, metas, pos, h) && Stack(s, pool, metas, u, pos, h)
    requires pos < Pow2(s.g) && LenAt(s.c, s.g, pos) > Depth(s.l, h) + s.l && AtBlock(s.g, pos, Depth(s.l, h) + s.l)
    requires TableOk(s, Meta(h + 1, Block(s.g, pos, Depth(s.l, h) + s.l), j)) && h + 1 < |u|
    ensures var d := Depth(s.l, h) + s.l; var m := LinkCell(s, pos, d);
      && u[h] < |pool| && m < |pool[u[h]]|
      && var pool' := WithTable(pool, u[h], m, Link(s.l, j, |pool|), j);
      && var metas' := metas + [Meta(h + 1, Block(s.g, pos, d), j)];
      && Tables(s, pool', metas') && Filled(s, pool', metas', pos, h + 1)
      && Stack(s, pool', metas', u[h + 1 := |pool|], pos, h + 1)
  {
    hide LenAt, Block, Pow2, Rev, CellState, TableOk, AtBlock, LinkCell, Over;
    var d := Depth(s.l, h) + s.l;
    var m0, top := LinkCell(s, pos, d), u[h];
    var t' := Meta(h + 1, Block(s.g, pos, d), j);
    LinkCellIs(s, metas[top], pos);
    var pool', metas', u' := WithTable(pool, top, m0, Link(s.l, j, |pool|), j), metas + [t'], u[h + 1 := |pool|];
    forall q, m | 0 <= q < |pool'| && 0 <= m < |pool'[q]| ensures CellState(s, metas', metas'[q], m, pool'[q][m], pos, h + 1) {
      if q == |pool| {
        CreateNew(s, metas', t', m, pos);
      } else {
        assert CellState(s, metas, metas[q], m, pool[q][m], pos, h);
        if q == top {
          CreateTop(s, metas, metas[q], m, pool[q][m], pos, h, j);
        } else {
          CreateOther(s, metas, metas', metas[q], m, pool[q][m], pos, h);
        }
      }
    }
  }

  /** The first table. */
  lemma {:induction false} FirstTable(s: Space, u: seq<nat>, j: nat)
    requires s.Ok() && TableOk(s, Meta(0, 0, j)) && |u| > 0 && u[0] == 0
    ensures var pool := [Blank(Pow2(j))]; var metas := [Meta(0, 0, j)];
      Tables(s, pool, metas) && Filled(s, pool, metas, 0, 0) && Stack(s, pool, metas, u, 0, 0)
  {
    hide LenAt, Pow2, CellState, TableOk;
    var pool, metas := [Blank(Pow2(j))], [Meta(0, 0, j)];
    forall q, m | 0 <= q < |pool| && 0 <= m < |pool[q]| ensures CellState(s, metas, metas[q], m, pool[q][m], 0, 0) {
      CreateNew(s, metas, metas[0], m, 0);
    }
  }

  // -------------------------------------------------- a code stored, tables closed

  lemma {:induction false} OthersOver(s: Space, t: Meta, pos: nat, pos': nat)
    requires s.Ok() && TableOk(s, t) && Block(s.g, pos, Depth(s.l, t.h)) == t.pv && pos <= pos'
    requires Block(s.g, pos', Depth(s.l, t.h)) != t.pv
    ensures Over(s, t, pos')
  {
    hide LenAt, Block;
    BaseIs(s.g, Depth(s.l, t.h), t.pv, pos);
    BaseIs(s.g, Depth(s.l, t.h), t.pv, pos');
  }

  /** The cells of a table after the code at pos is stored in it. */
  ghost predicate Stored(s: Space, t: Meta, cells: seq<Entry>, cells': seq<Entry>, pos: nat, leaf: Entry)
    requires s.Ok() && TableOk(s, t) && pos < Pow2(s.g) && Depth(s.l, t.h) <= LenAt(s.c, s.g, pos)
  {
    var k := LenAt(s.c, s.g, pos);
    var b := k - Depth(s.l, t.h);
    |cells'| == |cells| && forall m :: 0 <= m < |cells| ==>
      cells'[m] == if m % Pow2(b) == Rev(Block(s.g, pos, k) % Pow2(b), b) then leaf else cells[m]
  }

  lemma {:induction false} StoredCell(s: Space, metas: seq<Meta>, t: Meta, cells: seq<Entry>, cells': seq<Entry>, m: nat,
                                      leaf: Entry, pos: nat, h: int, hh: int)
    requires s.Ok() && TableOk(s, t) && t.h == h && AtCode(s, pos) && Block(s.g, pos, Depth(s.l, t.h)) == t.pv
    requires Depth(s.l, t.h) <= LenAt(s.c, s.g, pos) <= Depth(s.l, t.h) + s.l && LeafFor(s, t, pos, leaf)
    requires Stored(s, t, cells, cells', pos, leaf) && m < |cells| && CellState(s, metas, t, m, cells[m], pos, h) && hh <= h
    ensures CellState(s, metas, t, m, cells'[m], After(s, pos), hh)
  {
    hide LenAt, Block, CellStart, After, SlotAt, Pow2, AtCode, Rev, CellState, LeafFor;
    AtCodeIs(s, pos);
    LenAtIs(s.c, s.g, pos);
    CellLen(s, t, pos);
    LeafTop(s, metas, t, m, cells[m], leaf, pos, h, hh);
    InCode(s.g, Depth(s.l, t.h), t.pv, t.j, m, pos, LenAt(s.c, s.g, pos));
  }

  /** Levels up to hh still lead to where pos' lies, those above do not. */
  ghost predicate BackTo(s: Space, pos: nat, pos': nat, h: int, hh: int) {
    && 0 <= hh <= h && Depth(s.l, h) <= s.g
    && (forall e: nat :: e <= hh ==> Depth(s.l, e) <= s.g && Block(s.g, pos', Depth(s.l, e)) == Block(s.g, pos, Depth(s.l, e)))
    && (forall e: nat :: hh < e <= h ==> Depth(s.l, e) <= s.g && Block(s.g, pos', Depth(s.l, e)) != Block(s.g, pos, Depth(s.l, e)))
  }

  /** Storing the code at pos in the table on top, and backing up to level hh. */
  lemma {:induction false} StoreStep(s: Space, pool: Pool, pool': Pool, metas: seq<Meta>, u: seq<nat>, pos: nat, h: nat, hh: int, leaf: Entry)
    requires s.Ok() && Tables(s, pool, metas) && Filled(s, pool, metas, pos, h) && Stack(s, pool, metas, u, pos, h)
    requires AtCode(s, pos) && Depth(s.l, h) <= LenAt(s.c, s.g, pos) <= Depth(s.l, h) + s.l
    requires u[h] < |pool| == |pool'| && LeafFor(s, metas[u[h]], pos, leaf)
    requires Stored(s, metas[u[h]], pool[u[h]], pool'[u[h]], pos, leaf)
    requires forall q :: 0 <= q < |pool| && q != u[h] ==> pool'[q] == pool[q]
    requires hh <= h && (After(s, pos) < Pow2(s.g) ==> BackTo(s, pos, After(s, pos), h, hh))
    ensures Tables(s, pool', metas) && Filled(s, pool', metas, After(s, pos), hh)
    ensures After(s, pos) < Pow2(s.g) ==> Stack(s, pool', metas, u, After(s, pos), hh)
  {
    hide LenAt, Block, Pow2, Rev, CellState, TableOk, After, Over, AtCode, LeafFor, Stored;
    var top, pos' := u[h], After(s, pos);
    AtCodeIs(s, pos);
    CodeSpan(s, pos, 0);
    StoredSame(s, metas[top], pool[top], pool'[top], pos, leaf);
    forall q, m | 0 <= q < |pool'| && 0 <= m < |pool'[q]| ensures CellState(s, metas, metas[q], m, pool'[q][m], pos', hh) {
      assert CellState(s, metas, metas[q], m, pool[q][m], pos, h);
      if q == top {
        StoredCell(s, metas, metas[q], pool[q], pool'[q], m, leaf, pos, h, hh);
      } else if Over(s, metas[q], pos) {
        LeafOver(s, metas, metas[q], m, pool[q][m], pos, h, pos', hh);
      } else {
        DepthMono(s.l, metas[q].h, h);
        LevelKept(s, pos, pos', h, hh, metas[q].h);
        CellLen(s, metas[top], pos);
        LeafBelow(s, metas, metas[q], m, pool[q][m], pos, h, hh);
      }
    }
    if pos' < Pow2(s.g) {
      StackBack(s, pool, pool', metas, u, pos, pos', h, hh);
    }
  }

  lemma {:induction false} StoredSame(s: Space, t: Meta, cells: seq<Entry>, cells': seq<Entry>, pos: nat, leaf: Entry)
    requires s.Ok() && TableOk(s, t) && pos < Pow2(s.g) && Depth(s.l, t.h) <= LenAt(s.c, s.g, pos)
    requires Stored(s, t, cells, cells', pos, leaf)
    ensures |cells'| == |cells|
  {
  }

  lemma {:induction false} LevelKept(s: Space, pos: nat, pos': nat, h: int, hh: int, e: nat)
    requires e < h && (pos' < Pow2(s.g) ==> BackTo(s, pos, pos', h, hh))
    ensures pos' < Pow2(s.g) && e < hh && Depth(s.l, e) + s.l <= s.g ==>
      Block(s.g, pos', Depth(s.l, e) + s.l) == Block(s.g, pos, Depth(s.l, e) + s.l)
  {
    hide Block, Pow2;
    if pos' < Pow2(s.g) && e < hh {
      assert Depth(s.l, e + 1) == Depth(s.l, e) + s.l;
    }
  }

  lemma {:induction false} StackBack(s: Space, pool: Pool, pool': Pool, metas: seq<Meta>, u: seq<nat>, pos: nat, pos': nat, h: nat, hh: int)
    requires s.Ok() && Tables(s, pool, metas) && Stack(s, pool, metas, u, pos, h) && Tables(s, pool', metas)
    requires pos <= pos' < Pow2(s.g) && BackTo(s, pos, pos', h, hh)
    ensures Stack(s, pool', metas, u, pos', hh)
  {
    hide LenAt, Block, Pow2, TableOk, Over;
    forall q | 0 <= q < |metas| ensures Over(s, metas[q], pos') || Current(s, metas, u, pos', hh, q) {
      if Over(s, metas[q], pos) {
        StillOver(s, metas[q], pos, pos');
      } else {
        assert Current(s, metas, u, pos, h, q);
        if Block(s.g, pos', Depth(s.l, metas[q].h)) != metas[q].pv {
          OthersOver(s, metas[q], pos, pos');
        }
      }
    }
  }

  lemma {:induction false} StillOver(s: Space, t: Meta, pos: nat, pos': nat)
    requires s.Ok() && TableOk(s, t) && Over(s, t, pos) && pos <= pos'
    ensures Over(s, t, pos')
  {
  }
}
