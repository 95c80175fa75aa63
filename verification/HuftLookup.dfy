/** Walking the tables of inflate for a stream of bits, against the code set the
    tables were built from. */
module HuftLookup {
  import opened Bits
  import opened CodeSpace
  import opened HuftTables
  import opened BitString

  /** A number read from the stream, lowest bit first. */
  function Low(b: seq<Bit>): (v: nat)
    ensures v < Pow2(|b|)
  {
    if b == [] then 0 else b[0] + 2 * Low(b[1..])
  }

  lemma {:induction false} ValueFront(b: seq<Bit>)
    requires b != []
    ensures ValueOf(b) == b[0] * Pow2(|b| - 1) + ValueOf(b[1..])
  {
    var n := |b| - 1;
    if n > 0 {
      var init := b[..n];
      ValueFront(init);
      assert b[1..][..n - 1] == init[1..] && b[1..][n - 1] == b[n];
      hide ValueOf, Pow2;
      ValueStep(b);
      ValueStep(b[1..]);
      assert init[0] == b[0];
      Doubled(b[0], n);
    } else {
      assert b[..n] == [] && b[1..] == [];
    }
  }

  lemma {:induction false} ValueStep(b: seq<Bit>)
    requires b != []
    ensures ValueOf(b) == 2 * ValueOf(b[..|b| - 1]) + b[|b| - 1]
  {
  }

  lemma {:induction false} Doubled(x: nat, n: nat)
    requires n > 0
    ensures x * Pow2(n) == 2 * (x * Pow2(n - 1))
  {
  }

  /** The same bits, highest first. */
  lemma {:induction false} RevLowIs(b: seq<Bit>)
    ensures Rev(Low(b), |b|) == ValueOf(b)
  {
    hide Rev, ValueOf, Pow2, Low;
    if b == [] {
      Pow2Zero(Low(b));
      NoBits();
    } else {
      RevLowIs(b[1..]);
      ValueFront(b);
      LowStep(b);
      RevStep(Low(b), |b|);
      BitTimes(b[0], Pow2(|b| - 1));
    }
  }

  lemma {:induction false} NoBits()
    ensures ValueOf([]) == 0
  {
  }

  lemma {:induction false} LowStep(b: seq<Bit>)
    requires b != []
    ensures Low(b) / 2 == Low(b[1..]) && Low(b) % 2 == b[0]
  {
  }

  lemma {:induction false} BitTimes(x: Bit, p: nat)
    ensures x * p == if x == 1 then p else 0
  {
  }

  /** What a walk comes to: a code of so many bits, an entry that nothing was
      ever written to, or the end of the bits. */
  datatype Outcome = Found(op: Op, used: nat) | Garbage | Short

  /** The table walk of inflate_codes: the next bits select an entry, until one
      ends a code. */
  function Look(pool: Pool, q: nat, bits: nat, stream: seq<Bit>, at: nat): Outcome
    decreases |stream| - at
  {
    if at + bits > |stream| then Short
    else
      var m := Low(stream[at..at + bits]);
      if q >= |pool| || m >= |pool[q]| then Garbage
      else
        match pool[q][m]
        case Unset => Garbage
        case Leaf(b, e, n) => Found(Op(e, n), at + b)
        case Link(b, more, table) => if b == 0 || at >= |stream| then Garbage else Look(pool, table, more, stream, at + b)
  }

  /** The tables are complete: every cell has its final content. */
  ghost predicate Built(s: Space, pool: Pool, metas: seq<Meta>) {
    && s.Ok() && Tables(s, pool, metas) && |metas| > 0 && metas[0].h == 0 && metas[0].pv == 0
    && forall q, m :: 0 <= q < |pool| && 0 <= m < |pool[q]| ==> CellOk(s, metas, metas[q], m, pool[q][m])
  }

  lemma {:induction false} AllDone(s: Space, pool: Pool, metas: seq<Meta>, h: int)
    requires s.Ok() && Tables(s, pool, metas) && Filled(s, pool, metas, Pow2(s.g), h)
    requires |metas| > 0 && metas[0].h == 0 && metas[0].pv == 0
    ensures Built(s, pool, metas)
  {
    hide CellOk, TableOk, CellStart;
    forall q, m | 0 <= q < |pool| && 0 <= m < |pool[q]| ensures CellOk(s, metas, metas[q], m, pool[q][m]) {
      assert CellState(s, metas, metas[q], m, pool[q][m], Pow2(s.g), h);
      StartBelow(s, metas[q], m);
    }
  }

  lemma {:induction false} StartBelow(s: Space, t: Meta, m: nat)
    requires s.Ok() && TableOk(s, t)
    ensures Depth(s.l, t.h) + t.j <= s.g && CellStart(s.g, Depth(s.l, t.h), t.pv, t.j, m) < Pow2(s.g)
  {
    StartIn(s.g, Depth(s.l, t.h), t.pv, t.j, m);
  }

  /** The first d bits of the string the stream starts with. */
  lemma {:induction false} BlockOfStream(stream: seq<Bit>, g: nat, d: nat)
    requires d <= g <= |stream|
    ensures ValueOf(stream[..g]) < Pow2(g) && Block(g, ValueOf(stream[..g]), d) == ValueOf(stream[..d])
  {
    var v := ValueOf(stream[..g]);
    BitsOfValue(stream[..g]);
    ValuePrefix(v, g, d);
    assert BitsOf(v, g)[..d] == stream[..d];
  }

  lemma {:induction false} Shifted(a: nat, p: nat, x: nat, b: nat, last: nat)
    requires x == a * p + b
    ensures 2 * x + last == a * (2 * p) + (2 * b + last)
  {
  }

  lemma {:induction false} ValueConcat(a: seq<Bit>, b: seq<Bit>)
    ensures ValueOf(a + b) == ValueOf(a) * Pow2(|b|) + ValueOf(b)
  {
    if b == [] {
      assert a + b == a;
    } else {
      hide ValueOf, Pow2;
      var init, last := b[..|b| - 1], b[|b| - 1];
      ValueConcat(a, init);
      assert a + b == (a + init) + [last] && b == init + [last];
      ValueLast(a + init, last);
      ValueLast(init, last);
      PowerNext(|init|);
      Shifted(ValueOf(a), Pow2(|init|), ValueOf(a + init), ValueOf(init), last);
    }
  }

  lemma {:induction false} ValueLast(a: seq<Bit>, bit: Bit)
    ensures ValueOf(a + [bit]) == 2 * ValueOf(a) + bit
  {
    assert (a + [bit])[..|a|] == a;
  }

  lemma {:induction false} PowerNext(n: nat)
    ensures Pow2(n + 1) == 2 * Pow2(n) && Pow2(0) == 1 && ValueOf([]) == 0
  {
  }

  /** The bits a table is asked about: all it has, but l for the first. */
  function Asked(s: Space, t: Meta): nat {
    if t.h == 0 then s.l else t.j
  }

  /** The next bits of the stream, read low bit first, reversed onto the prefix. */
  lemma {:induction false} NextBits(g: nat, w: nat, e: nat, stream: seq<Bit>)
    requires w + e <= g <= |stream|
    ensures var v, m := ValueOf(stream[..g]), Low(stream[w..w + e]);
      m < Pow2(e) && Block(g, v, w + e) == Block(g, v, w) * Pow2(e) + Rev(m, e)
  {
    hide Rev, Pow2, Block, ValueOf, Low;
    var part := stream[w..w + e];
    RevLowIs(part);
    BlockOfStream(stream, g, w + e);
    BlockOfStream(stream, g, w);
    assert stream[..w + e] == stream[..w] + part;
    ValueConcat(stream[..w], part);
  }

  /** The cell selected starts with the bits of the stream that lead to it. */
  lemma {:induction false} Selected(s: Space, t: Meta, stream: seq<Bit>) returns (m: nat)
    requires s.Ok() && TableOk(s, t) && |stream| >= s.g
    requires Block(s.g, ValueOf(stream[..s.g]), Depth(s.l, t.h)) == t.pv
    ensures var w, e := Depth(s.l, t.h), Asked(s, t);
      && e <= t.j && w + t.j <= s.g && m == Low(stream[w..w + e]) < Pow2(e) <= Pow2(t.j)
      && Block(s.g, CellStart(s.g, w, t.pv, t.j, m), w + e) == Block(s.g, ValueOf(stream[..s.g]), w + e)
      && Block(s.g, ValueOf(stream[..s.g]), w + e) == t.pv * Pow2(e) + Rev(m, e)
  {
    var w, e := Depth(s.l, t.h), Asked(s, t);
    hide Rev, Pow2, LenAt, Block, Used, CellStart, ValueOf, Low, Depth, Base;
    m := Low(stream[w..w + e]);
    Pow2Mono(e, t.j);
    StartBlock(s.g, w, t.pv, t.j, m, e);
    NextBits(s.g, w, e, stream);
    SmallMod(m, Pow2(e));
  }

  /** No table is wider than l bits but perhaps the first. */
  ghost predicate Narrow(s: Space, metas: seq<Meta>) {
    forall q :: 0 <= q < |metas| && metas[q].h >= 1 ==> metas[q].j <= s.l
  }

  /** The link for the strings that share their next l bits with v. */
  ghost predicate LinkFor(s: Space, metas: seq<Meta>, t: Meta, v: nat, x: Entry)
    requires s.Ok() && Depth(s.l, t.h) + s.l <= s.g
  {
    && x.Link? && x.b == s.l && x.table < |metas|
    && metas[x.table] == Meta(t.h + 1, Block(s.g, v, Depth(s.l, t.h) + s.l), x.bits)
  }

  /** What the cell selected holds, in terms of the stream. */
  lemma {:induction false} SelectedCell(s: Space, pool: Pool, metas: seq<Meta>, q: nat, stream: seq<Bit>) returns (m: nat)
    requires Built(s, pool, metas) && q < |pool| && |stream| >= s.g
    requires metas[q].h >= 1 ==> metas[q].j <= s.l
    requires Block(s.g, ValueOf(stream[..s.g]), Depth(s.l, metas[q].h)) == metas[q].pv
    ensures var t, v := metas[q], ValueOf(stream[..s.g]);
      var w, e, k := Depth(s.l, t.h), Asked(s, t), LenAt(s.c, s.g, v);
      && v < Pow2(s.g) && 1 <= k && 0 <= SlotAt(s.c, s.g, v) < |s.ops|
      && m == Low(stream[w..w + e]) < |pool[q]| && w + e <= s.g && w < k
      && (k <= w + s.l ==> LeafFor(s, t, v, pool[q][m]))
      && (k > w + s.l ==> e == s.l && LinkFor(s, metas, t, v, pool[q][m]))
  {
    hide Rev, Pow2, LenAt, Block, Used, CellStart, SlotAt, Low, ValueOf, Depth, TableOk;
    var t, v := metas[q], ValueOf(stream[..s.g]);
    var w, e := Depth(s.l, t.h), Asked(s, t);
    FitsSpace(s, t);
    m := Selected(s, t, stream);
    BlockOfStream(stream, s.g, 0);
    CodeAt(s.c, s.g, v);
    NumAtMost(s.c, LenAt(s.c, s.g, v), s.g);
    var v' := CellStart(s.g, w, t.pv, t.j, m);
    assert CellOk(s, metas, t, m, pool[q][m]);
    AskedEnough(s, t);
    StartIn(s.g, w, t.pv, t.j, m);
    CellLen(s, t, v');
    CellLen(s, t, v);
    Pow2Mono(e, s.l);
    if LenAt(s.c, s.g, v') <= w + s.l {
      BlockSame(s.g, v', v, LenAt(s.c, s.g, v'), w + e);
      SameCode(s.c, s.g, v', v);
    } else {
      BlockDeep(s.c, s.g, v', v, w + e);
    }
  }

  lemma {:induction false} AskedEnough(s: Space, t: Meta)
    requires s.Ok() && TableOk(s, t) && (t.h >= 1 ==> t.j <= s.l)
    ensures Asked(s, t) <= s.l && (Asked(s, t) < s.l ==> Asked(s, t) == t.j) && t.pv < Pow2(Depth(s.l, t.h))
  {
  }

  lemma {:induction false} NumAtMost(c: Counts, j: nat, k: nat)
    requires j <= k <= BMAX
    ensures Num(c, j) <= Num(c, k)
  {
    if j < k { NumAtMost(c, j, k - 1); }
  }

  /** With narrow tables the walk ends at the stream's own code. */
  lemma {:induction false} WalkRight(s: Space, pool: Pool, metas: seq<Meta>, q: nat, stream: seq<Bit>)
    requires Built(s, pool, metas) && Narrow(s, metas) && q < |pool| && |stream| >= s.g
    requires Block(s.g, ValueOf(stream[..s.g]), Depth(s.l, metas[q].h)) == metas[q].pv
    ensures var v := ValueOf(stream[..s.g]);
      && v < Pow2(s.g) && 1 <= LenAt(s.c, s.g, v) && 0 <= SlotAt(s.c, s.g, v) < |s.ops|
      && Look(pool, q, Asked(s, metas[q]), stream, Depth(s.l, metas[q].h)) == Found(s.ops[SlotAt(s.c, s.g, v)], LenAt(s.c, s.g, v))
    decreases s.g - Depth(s.l, metas[q].h)
  {
    hide *;
    NarrowAt(s, pool, metas, q);
    var t, v := metas[q], ValueOf(stream[..s.g]);
    var m := SelectedCell(s, pool, metas, q, stream);
    if LenAt(s.c, s.g, v) <= Depth(s.l, t.h) + s.l {
      LookLeaf(s, pool, t, q, stream, m, v);
    } else {
      LookLink(s, pool, metas, t, q, stream, m, v);
      WalkRight(s, pool, metas, pool[q][m].table, stream);
    }
  }

  lemma {:induction false} NarrowAt(s: Space, pool: Pool, metas: seq<Meta>, q: nat)
    requires Built(s, pool, metas) && Narrow(s, metas) && q < |pool|
    ensures s.Ok() && 1 <= s.g <= BMAX && |pool| == |metas| && (metas[q].h >= 1 ==> metas[q].j <= s.l)
  {
  }

  lemma {:induction false} LookLeaf(s: Space, pool: Pool, t: Meta, q: nat, stream: seq<Bit>, m: nat, v: nat)
    requires s.Ok() && q < |pool| && v < Pow2(s.g)
    requires var w, e := Depth(s.l, t.h), Asked(s, t);
      w + e <= |stream| && m == Low(stream[w..w + e]) < |pool[q]| && LeafFor(s, t, v, pool[q][m])
    ensures 1 <= LenAt(s.c, s.g, v) && 0 <= SlotAt(s.c, s.g, v) < |s.ops|
    ensures Look(pool, q, Asked(s, t), stream, Depth(s.l, t.h)) == Found(s.ops[SlotAt(s.c, s.g, v)], LenAt(s.c, s.g, v))
  {
    hide LenAt, SlotAt, Pow2, Low;
  }

  lemma {:induction false} LookLink(s: Space, pool: Pool, metas: seq<Meta>, t: Meta, q: nat, stream: seq<Bit>, m: nat, v: nat)
    requires s.Ok() && |pool| == |metas| && q < |pool| && v < Pow2(s.g) && |stream| >= s.g
    requires var w, e := Depth(s.l, t.h), Asked(s, t);
      w + s.l <= s.g && e == s.l && m == Low(stream[w..w + e]) < |pool[q]| && LinkFor(s, metas, t, v, pool[q][m])
    ensures pool[q][m].Link?
    ensures var q' := pool[q][m].table;
      && q' < |pool| && Depth(s.l, t.h) < Depth(s.l, metas[q'].h) <= s.g && metas[q'].h == t.h + 1
      && Block(s.g, v, Depth(s.l, metas[q'].h)) == metas[q'].pv
      && Look(pool, q, Asked(s, t), stream, Depth(s.l, t.h))
         == Look(pool, q', Asked(s, metas[q']), stream, Depth(s.l, metas[q'].h))
  {
    hide LenAt, Pow2, Low, Block;
    assert Depth(s.l, t.h + 1) == Depth(s.l, t.h) + s.l;
  }

  // ------------------------------------------------------ when they are narrow

  /** The codes shorter than each further level leave less than one table's share
      of the strings. */
  ghost predicate Fine(c: Counts, g: nat, l: nat) {
    forall h: nat :: h >= 1 && l >= 1 && Depth(l, h + 1) < g <= BMAX ==> Crowded(c, g, l, h)
  }

  ghost predicate Crowded(c: Counts, g: nat, l: nat, h: nat)
    requires Depth(l, h + 1) < g <= BMAX && l >= 1
  {
    Used(c, g, Depth(l, h) + l - 1) + Pow2(g - Depth(l, h)) > Pow2(g)
  }

  lemma {:induction false} CrowdedAt(c: Counts, g: nat, l: nat, h: nat)
    requires Fine(c, g, l) && h >= 1 && l >= 1 && Depth(l, h + 1) < g <= BMAX
    ensures Crowded(c, g, l, h)
  {
  }

  /** A table at level h begins no later than the last. */
  lemma {:induction false} BaseLast(g: nat, w: nat, pv: nat)
    requires w <= g && pv < Pow2(w)
    ensures Base(g, w, pv) + Pow2(g - w) <= Pow2(g) && Base(g, w, pv + 1) == Base(g, w, pv) + Pow2(g - w)
    ensures pv + 1 == Pow2(w) ==> Base(g, w, pv + 1) == Pow2(g)
  {
    hide Pow2;
    Pow2Add(w, g - w);
    OneMore(pv, Pow2(g - w));
    MulLess(pv, Pow2(w), Pow2(g - w));
  }

  /** Then no table is wide. */
  lemma {:induction false} FineNarrow(s: Space, pool: Pool, metas: seq<Meta>)
    requires Built(s, pool, metas) && Fine(s.c, s.g, s.l)
    ensures Narrow(s, metas)
  {
    hide LenAt, Pow2, Used, Base, Fine, CellOk;
    forall q | 0 <= q < |metas| && metas[q].h >= 1 ensures metas[q].j <= s.l {
      var w := Depth(s.l, metas[q].h);
      BaseLast(s.g, w, metas[q].pv);
      assert Depth(s.l, metas[q].h + 1) == w + s.l;
      if Wide(s, metas[q]) {
        CrowdedAt(s.c, s.g, s.l, metas[q].h);
      }
    }
  }

  // --------------------------------------------------- and what happens otherwise

  predicate AllOnes(stream: seq<Bit>) {
    forall i :: 0 <= i < |stream| ==> stream[i] == 1
  }

  lemma {:induction false} OnesValue(stream: seq<Bit>)
    requires AllOnes(stream)
    ensures ValueOf(stream) + 1 == Pow2(|stream|) && Low(stream) + 1 == Pow2(|stream|)
  {
    if stream != [] {
      OnesValue(stream[..|stream| - 1]);
      OnesValue(stream[1..]);
    }
  }

  /** The last string belongs to a longest code. */
  lemma {:induction false} OnesLongest(c: Counts, g: nat)
    requires Complete(c, g)
    ensures Pow2(g) > 0 && LenAt(c, g, Pow2(g) - 1) == g
  {
    UsedAll(c, g);
    hide Used;
    LenUnique(c, g, Pow2(g) - 1, g);
  }

  /** The table that all ones lead to at a level where too few shorter codes have
      been used is wide, and its last cell is never written. */
  lemma {:induction false} OnesUnset(s: Space, pool: Pool, metas: seq<Meta>, q: nat)
    requires Built(s, pool, metas) && q < |pool| && metas[q].h >= 1 && metas[q].j > s.l
    requires metas[q].pv + 1 == Pow2(Depth(s.l, metas[q].h)) && Depth(s.l, metas[q].h) + s.l < s.g
    ensures Pow2(metas[q].j) == |pool[q]| > 0 && pool[q][|pool[q]| - 1] == Unset
  {
    hide LenAt, Block, Used, CellStart, SlotAt, Rev, Pow2;
    var t := metas[q];
    var w, m := Depth(s.l, t.h), Pow2(t.j) - 1;
    assert CellOk(s, metas, t, m, pool[q][m]);
    var v := CellStart(s.g, w, t.pv, t.j, m);
    OnesBlock(s.g, w, t.pv, t.j, s.l);
    OnesLongest(s.c, s.g);
    StartIn(s.g, w, t.pv, t.j, m);
    BlockDeep(s.c, s.g, Pow2(s.g) - 1, v, w + s.l);
    Pow2More(s.l, t.j);
  }

  lemma {:induction false} Pow2More(a: nat, b: nat)
    requires a < b
    ensures 2 * Pow2(a) <= Pow2(b) && Pow2(a) > 0
  {
    Pow2Mono(a, b - 1);
  }

  /** All ones, read either way. */
  lemma {:induction false} RevOnes(n: nat)
    ensures Pow2(n) > 0 && Rev(Pow2(n) - 1, n) == Pow2(n) - 1
  {
    if n > 0 {
      RevOnes(n - 1);
    }
  }

  lemma {:induction false} OnesBlock(g: nat, w: nat, pv: nat, j: nat, l: nat)
    requires w + j <= g && l <= j && pv + 1 == Pow2(w)
    ensures Pow2(j) > 0 && Pow2(g) > 0
    ensures Block(g, CellStart(g, w, pv, j, Pow2(j) - 1), w + l) == Block(g, Pow2(g) - 1, w + l)
  {
    hide Rev, Pow2, CellStart;
    RevOnes(l);
    Pow2Mono(l, j);
    StartBlock(g, w, pv, j, Pow2(j) - 1, l);
    OnesMod(l, j);
    Pow2Add(w, l);
    OneMore(pv, Pow2(l));
    Pow2Add(w + l, g - (w + l));
    Pow2Mono(0, g - (w + l));
    DivModUnique(Pow2(g) - 1, Pow2(g - (w + l)), Pow2(w + l) - 1, Pow2(g - (w + l)) - 1);
    LessOne(Pow2(w + l), Pow2(g - (w + l)));
  }

  lemma {:induction false} LessOne(a: nat, p: nat)
    requires a > 0 && p > 0
    ensures a * p - 1 == (a - 1) * p + (p - 1)
  {
  }

  lemma {:induction false} OnesMod(l: nat, j: nat)
    requires l <= j
    ensures Pow2(j) > 0 && (Pow2(j) - 1) % Pow2(l) == Pow2(l) - 1
  {
    hide Pow2;
    Pow2Mono(0, l);
    Pow2Mono(0, j - l);
    Pow2Add(j - l, l);
    LessOne(Pow2(j - l), Pow2(l));
    DivModUnique(Pow2(j) - 1, Pow2(l), Pow2(j - l) - 1, Pow2(l) - 1);
  }

  /** A level at which a whole table's share of the strings is left: that table is
      wide. */
  lemma {:induction false} LeftOverWide(s: Space, pool: Pool, metas: seq<Meta>, q: nat)
    requires Built(s, pool, metas) && q < |metas| && metas[q].h >= 1
    requires Depth(s.l, metas[q].h + 1) < s.g && !Crowded(s.c, s.g, s.l, metas[q].h)
    requires metas[q].pv + 1 == Pow2(Depth(s.l, metas[q].h))
    ensures metas[q].j > s.l
  {
    hide LenAt, Pow2, Used, Base, CellOk;
    var w := Depth(s.l, metas[q].h);
    assert Depth(s.l, metas[q].h + 1) == w + s.l;
    BaseLast(s.g, w, metas[q].pv);
    UsedAll(s.c, s.g);
  }

  lemma {:induction false} OnesPrefix(g: nat, w: nat)
    requires w <= g
    ensures Pow2(w) > 0 && Pow2(g) > 0 && Block(g, Pow2(g) - 1, w) + 1 == Pow2(w)
  {
    hide Pow2;
    Pow2Mono(0, w);
    Pow2Mono(0, g - w);
    Pow2Add(w, g - w);
    LessOne(Pow2(w), Pow2(g - w));
    DivModUnique(Pow2(g) - 1, Pow2(g - w), Pow2(w) - 1, Pow2(g - w) - 1);
  }

  /** Walking all ones comes to a cell that was never written. */
  lemma {:induction false} WalkWrong(s: Space, pool: Pool, metas: seq<Meta>, q: nat, stream: seq<Bit>, bad: nat)
    requires Built(s, pool, metas) && q < |pool| && |stream| >= s.g && AllOnes(stream)
    requires bad >= 1 && Depth(s.l, bad + 1) < s.g && !Crowded(s.c, s.g, s.l, bad)
    requires metas[q].h <= bad && Block(s.g, ValueOf(stream[..s.g]), Depth(s.l, metas[q].h)) == metas[q].pv
    ensures Look(pool, q, Asked(s, metas[q]), stream, Depth(s.l, metas[q].h)) == Garbage
    decreases bad - metas[q].h
  {
    hide *;
    BuiltIs(s, pool, metas, q);
    var t, v := metas[q], ValueOf(stream[..s.g]);
    OnesTaken(stream, s.g);
    OnesValue(stream[..s.g]);
    OnesPrefix(s.g, Depth(s.l, t.h));
    LevelBelow(s, t.h, bad);
    if t.h == bad { LeftOverWide(s, pool, metas, q); }
    if t.h >= 1 && t.j > s.l {
      OnesUnset(s, pool, metas, q);
      OnesWithin(stream, Depth(s.l, t.h), t.j);
      OnesValue(stream[Depth(s.l, t.h)..Depth(s.l, t.h) + t.j]);
      LookUnset(s, pool, t, q, stream);
    } else {
      var m := SelectedCell(s, pool, metas, q, stream);
      OnesLongest(s.c, s.g);
      LookLink(s, pool, metas, t, q, stream, m, v);
      WalkWrong(s, pool, metas, pool[q][m].table, stream, bad);
    }
  }

  lemma {:induction false} BuiltIs(s: Space, pool: Pool, metas: seq<Meta>, q: nat)
    requires Built(s, pool, metas) && q < |pool|
    ensures s.Ok() && Complete(s.c, s.g) && 1 <= s.g <= BMAX && |pool| == |metas| && Depth(s.l, metas[q].h) + metas[q].j <= s.g
  {
  }

  lemma {:induction false} OnesTaken(stream: seq<Bit>, n: nat)
    requires AllOnes(stream) && n <= |stream|
    ensures AllOnes(stream[..n])
  {
  }

  lemma {:induction false} OnesWithin(stream: seq<Bit>, w: nat, n: nat)
    requires AllOnes(stream) && w + n <= |stream|
    ensures AllOnes(stream[w..w + n])
  {
  }

  lemma {:induction false} LevelBelow(s: Space, h: nat, bad: nat)
    requires h <= bad && Depth(s.l, bad + 1) < s.g
    ensures Depth(s.l, h) + s.l < s.g && Depth(s.l, h + 1) == Depth(s.l, h) + s.l
  {
    if h < bad { DepthMono(s.l, h, bad + 1); }
  }

  lemma {:induction false} LookUnset(s: Space, pool: Pool, t: Meta, q: nat, stream: seq<Bit>)
    requires q < |pool| && t.h >= 1 && Depth(s.l, t.h) + t.j <= |stream|
    requires var w := Depth(s.l, t.h); Low(stream[w..w + t.j]) + 1 == |pool[q]| && pool[q][|pool[q]| - 1] == Unset
    ensures Look(pool, q, Asked(s, t), stream, Depth(s.l, t.h)) == Garbage
  {
    hide Low, Depth;
  }

  /** The walk decodes the stream's own code. */
  ghost predicate Decodes(s: Space, pool: Pool, stream: seq<Bit>)
    requires s.Ok() && |stream| >= s.g
  {
    var v := ValueOf(stream[..s.g]);
    && 1 <= LenAt(s.c, s.g, v) && 0 <= SlotAt(s.c, s.g, v) < |s.ops|
    && Look(pool, 0, s.l, stream, 0) == Found(s.ops[SlotAt(s.c, s.g, v)], LenAt(s.c, s.g, v))
  }

  /** The tables decode every stream just when the code set leaves no wide table.
      What is wrong otherwise is that a table's size is raised past its limit of
      l bits, and the cells beyond the first 2^l are then reached but not all
      written. */
  lemma {:induction false} DecodesIffFine(s: Space, pool: Pool, metas: seq<Meta>)
    requires Built(s, pool, metas)
    ensures (forall stream: seq<Bit> | |stream| >= s.g :: Decodes(s, pool, stream)) <==> Fine(s.c, s.g, s.l)
  {
    hide *;
    BuiltShape(s, pool, metas);
    if Fine(s.c, s.g, s.l) {
      FineNarrow(s, pool, metas);
      forall stream: seq<Bit> | |stream| >= s.g ensures Decodes(s, pool, stream) {
        FromRoot(s, pool, metas, stream);
        WalkRight(s, pool, metas, 0, stream);
        NowDecodes(s, pool, stream);
      }
    } else {
      var bad := NotFine(s.c, s.g, s.l);
      var stream: seq<Bit> := seq(s.g, _ => 1);
      OnesStream(stream);
      FromRoot(s, pool, metas, stream);
      WalkWrong(s, pool, metas, 0, stream, bad);
      NotDecodes(s, pool, stream);
    }
  }

  lemma {:induction false} OnesStream(stream: seq<Bit>)
    requires forall i :: 0 <= i < |stream| ==> stream[i] == 1
    ensures AllOnes(stream)
  {
  }

  lemma {:induction false} BuiltShape(s: Space, pool: Pool, metas: seq<Meta>)
    requires Built(s, pool, metas)
    ensures s.Ok() && 1 <= s.g <= BMAX && 1 <= s.l && |pool| == |metas| > 0 && metas[0].h == 0 && metas[0].pv == 0
  {
  }

  lemma {:induction false} FromRoot(s: Space, pool: Pool, metas: seq<Meta>, stream: seq<Bit>)
    requires Built(s, pool, metas) && |stream| >= s.g
    ensures Depth(s.l, metas[0].h) == 0 <= s.g && Asked(s, metas[0]) == s.l
    ensures Block(s.g, ValueOf(stream[..s.g]), Depth(s.l, metas[0].h)) == metas[0].pv
  {
    hide LenAt, Used, CellOk, TableOk;
    BlockOfStream(stream, s.g, 0);
  }

  lemma {:induction false} NotFine(c: Counts, g: nat, l: nat) returns (bad: nat)
    requires !Fine(c, g, l) && 1 <= l && g <= BMAX
    ensures bad >= 1 && Depth(l, bad + 1) < g && !Crowded(c, g, l, bad)
  {
    bad :| bad >= 1 && l >= 1 && Depth(l, bad + 1) < g <= BMAX && !Crowded(c, g, l, bad);
  }

  lemma {:induction false} NowDecodes(s: Space, pool: Pool, stream: seq<Bit>)
    requires s.Ok() && |stream| >= s.g
    requires var v := ValueOf(stream[..s.g]);
      && 1 <= LenAt(s.c, s.g, v) && 0 <= SlotAt(s.c, s.g, v) < |s.ops|
      && Look(pool, 0, s.l, stream, 0) == Found(s.ops[SlotAt(s.c, s.g, v)], LenAt(s.c, s.g, v))
    ensures Decodes(s, pool, stream)
  {
  }

  lemma {:induction false} NotDecodes(s: Space, pool: Pool, stream: seq<Bit>)
    requires s.Ok() && |stream| >= s.g && Look(pool, 0, s.l, stream, 0) == Garbage
    ensures !Decodes(s, pool, stream)
  {
  }
}
