/** huft_build: from code lengths to lookup tables. */
module HuftBuild {
  import opened Bits
  import opened CodeSpace
  import opened HuftTables
  import opened HuftLookup

  // ------------------------------------------------- the next code, backwards

  /** "backwards increment the k-bit code i" */
  method NextCode(i: nat, k: nat, ghost v: nat) returns (r: nat)
    requires k > 0 && v < Pow2(k) && i == Rev(v, k)
    ensures r == Rev((v + 1) % Pow2(k), k)
  {
    hide *;
    r := i;
    var j := Pow2(k - 1);
    ghost var m: nat, top: nat := k, v;
    NextStart(v, k);
    while And(r, j) != 0
      invariant m <= k && (if m > 0 then j == Pow2(m - 1) else j == 0)
      invariant r == Rev(top, m) && top < Pow2(m) && v + 1 == (top + 1) * Pow2(k - m)
      decreases m
    {
      if m == 0 { AndNone(r); }
      NextBit(top, m);
      NextClear(v, k, m, top);
      r := Xor(r, j);
      HalfPow(m);
      j := j / 2;
      m, top := m - 1, top / 2;
    }
    if m > 0 { NextBit(top, m); } else { XorNone(r); }
    NextEnd(v, k, m, top);
    r := Xor(r, j);
  }

  lemma {:induction false} NextStart(v: nat, k: nat)
    ensures v + 1 == (v + 1) * Pow2(k - k)
  {
  }

  lemma {:induction false} AndNone(a: nat)
    ensures And(a, 0) == 0
  {
  }

  lemma {:induction false} XorNone(a: nat)
    ensures Xor(a, 0) == a
  {
  }

  lemma {:induction false} HalfPow(m: nat)
    requires m > 0
    ensures Pow2(m - 1) / 2 == if m > 1 then Pow2(m - 2) else 0
  {
  }

  /** The bit tested is the lowest of the code value still held, reversed. */
  lemma {:induction false} HalfPower(n: nat)
    requires n > 0
    ensures Pow2(n) == 2 * Pow2(n - 1)
  {
  }

  lemma {:induction false} Doubling(code: nat, q: nat)
    ensures code * (2 * q) == (2 * code) * q
  {
  }

  lemma {:induction false} NextBit(top: nat, m: nat)
    requires m > 0 && top < Pow2(m)
    ensures And(Rev(top, m), Pow2(m - 1)) != 0 <==> top % 2 == 1
    ensures top % 2 == 1 ==> Xor(Rev(top, m), Pow2(m - 1)) == Rev(top / 2, m - 1)
    ensures top % 2 == 0 ==> Xor(Rev(top, m), Pow2(m - 1)) == Rev(top + 1, m)
  {
    hide Rev, And, Xor;
    var r, p := Rev(top, m), Pow2(m - 1);
    RevStep(top, m);
    RevStep(top + 1, m);
    RevBound(top / 2, m - 1);
    AndBit(r, m - 1);
    XorBit(r, m - 1);
    DivModUnique(r, p, top % 2, Rev(top / 2, m - 1));
  }

  lemma {:induction false} NextClear(v: nat, k: nat, m: nat, top: nat)
    requires 0 < m <= k && top < Pow2(m) && v + 1 == (top + 1) * Pow2(k - m) && top % 2 == 1
    ensures top / 2 < Pow2(m - 1) && v + 1 == (top / 2 + 1) * Pow2(k - (m - 1))
  {
    hide Pow2;
    HalfPower(k - (m - 1));
    HalfPower(m);
    Doubling(top / 2 + 1, Pow2(k - m));
  }

  lemma {:induction false} NextEnd(v: nat, k: nat, m: nat, top: nat)
    requires m <= k && k > 0 && top < Pow2(m) && v + 1 == (top + 1) * Pow2(k - m) && (m > 0 ==> top % 2 == 0)
    ensures m > 0 ==> Rev(top + 1, m) == Rev((v + 1) % Pow2(k), k)
    ensures m == 0 ==> Rev(top, m) == Rev((v + 1) % Pow2(k), k)
  {
    hide Rev, Pow2;
    Pow2Zero(0);
    if m == 0 {
      assert (top + 1) * Pow2(k) == Pow2(k);
      RevZero(k);
      DivModUnique(v + 1, Pow2(k), 1, 0);
    } else {
      HalfPower(m);
      RevShift(top + 1, m, k - m);
      Pow2Add(m, k - m);
      Pow2Mono(0, k - m);
      MulLess(top + 1, Pow2(m), Pow2(k - m));
      SmallMod(v + 1, Pow2(k));
    }
  }

  // ------------------------------------------------------ codes and positions

  /** code << (g - k) */
  function CodeStart(g: nat, k: nat, code: nat): (pos: nat)
    requires k <= g
    ensures pos == code * Pow2(g - k)
  {
    NonNegative(code, Pow2(g - k));
    code * Pow2(g - k)
  }

  /** Code number code among those of k bits starts at code << (g - k). */
  lemma {:induction false} CodeStarts(s: Space, k: nat, code: nat)
    requires s.Ok() && 1 <= k <= s.g && 2 * UpTo(s.c, k - 1) <= code < UpTo(s.c, k)
    ensures var pos := CodeStart(s.g, k, code);
      && pos < Pow2(s.g) && LenAt(s.c, s.g, pos) == k && Block(s.g, pos, k) == code && AtCode(s, pos)
      && After(s, pos) == (code + 1) * Pow2(s.g - k)
      && SlotAt(s.c, s.g, pos) == Num(s.c, k - 1) + code - 2 * UpTo(s.c, k - 1)
      && Used(s.c, s.g, k - 1) <= pos < Used(s.c, s.g, k) && code < Pow2(k)
  {
    hide LenAt, Pow2;
    var p, pos := Pow2(s.g - k), code * Pow2(s.g - k);
    UsedStep(s.c, s.g, k);
    MulLess(2 * UpTo(s.c, k - 1), code, p);
    MulLess(code, UpTo(s.c, k), p);
    OneMore(code, p);
    LenUnique(s.c, s.g, pos, k);
    BlockIs(s.g, pos, k, code);
    BlockBound(s.g, pos, k);
  }

  /** What is left of the codes of k bits. */
  lemma {:induction false} UsedRest(s: Space, k: nat, code: nat, a: nat)
    requires s.Ok() && 1 <= k <= s.g && code + a + 1 == UpTo(s.c, k)
    ensures Used(s.c, s.g, k) == code * Pow2(s.g - k) + (a + 1) * Pow2(s.g - k)
  {
    hide Pow2;
    assert (code + (a + 1)) * Pow2(s.g - k) == code * Pow2(s.g - k) + (a + 1) * Pow2(s.g - k);
  }

  // --------------------------------------------------------- the size of a table

  lemma {:induction false} PosBase(g: nat, pos: nat, w: nat)
    requires w <= g && AtBlock(g, pos, w) && pos < Pow2(g)
    ensures Base(g, w, Block(g, pos, w)) == pos && Base(g, w, Block(g, pos, w) + 1) == pos + Pow2(g - w) <= Pow2(g)
    ensures Block(g, pos, w) < Pow2(w)
  {
    hide Pow2, Block;
    BlockBound(g, pos, w);
    BaseLast(g, w, Block(g, pos, w));
  }

  /** The first size tried suffices. */
  lemma {:induction false} SizeAtOnce(s: Space, h: nat, w: nat, k: nat, pos: nat, a: nat)
    requires s.Ok() && w == Depth(s.l, h) && w < k <= s.g && pos < Pow2(s.g) && LenAt(s.c, s.g, pos) == k
    requires AtBlock(s.g, pos, w) && Used(s.c, s.g, k) == pos + (a + 1) * Pow2(s.g - k)
    requires Pow2(k - w) <= a + 1
    ensures TableOk(s, Meta(h, Block(s.g, pos, w), k - w))
  {
    hide LenAt, Pow2, Block, Used, AtBlock;
    PosBase(s.g, pos, w);
    Pow2Add(k - w, s.g - k);
    Pow2Mono(0, s.g - k);
    MulLessEq(Pow2(k - w), a + 1, Pow2(s.g - k));
    SizeFits(s, h, w, k, pos, k - w);
    LenAtIs(s.c, s.g, pos);
    if w + s.l < s.g {
      if k > w + s.l { UsedMono(s.c, s.g, w + s.l, k - 1); UsedMono(s.c, s.g, w + s.l - 1, k - 1); }
      if k < w + s.l { UsedMono(s.c, s.g, k, w + s.l - 1); }
    }
  }

  lemma {:induction false} MulLessEq(a: nat, b: nat, m: nat)
    requires a <= b
    ensures a * m <= b * m
  {
    NonNegative(b - a, m);
    assert (b - a) * m == b * m - a * m;
  }

  /** A table whose strings are used up within its bits; the first is never
      smaller than l. */
  lemma {:induction false} SizeFits(s: Space, h: nat, w: nat, k: nat, pos: nat, j: nat)
    requires s.Ok() && w == Depth(s.l, h) && w < k <= w + j <= s.g && pos < Pow2(s.g) && LenAt(s.c, s.g, pos) == k
    requires AtBlock(s.g, pos, w) && pos + Pow2(s.g - w) <= Used(s.c, s.g, w + j)
    ensures h == 0 ==> j >= s.l
  {
    hide LenAt, Pow2, Block, Used;
    if h == 0 {
      UsedAll(s.c, s.g);
    }
  }

  /** Too few codes of k bits: the first size that does is sought. */
  method ChooseBits(s: Space, h: nat, w: nat, k: nat, a: nat, ghost pos: nat) returns (j: nat)
    requires s.Ok() && w == Depth(s.l, h) && w < k <= s.g && pos < Pow2(s.g) && LenAt(s.c, s.g, pos) == k
    requires AtBlock(s.g, pos, w) && Used(s.c, s.g, k) == pos + (a + 1) * Pow2(s.g - k)
    ensures TableOk(s, Meta(h, Block(s.g, pos, w), j))
  {
    hide *;
    SpaceIs(s);
    var z := if s.g - w > s.l then s.l else s.g - w;
    j := k - w;
    var f := Pow2(j);
    if f > a + 1 {
      f := f - (a + 1);
      var xp := k;
      ghost var end := pos + Pow2(s.g - w);
      SizeStart(s, w, k, pos, a);
      j := j + 1;
      while j < z
        invariant k - w < j && (j <= z || j == k - w + 1) && xp == w + j - 1 < s.g
        invariant f > 0 && f * Pow2(s.g - xp) + Used(s.c, s.g, xp) == end
      {
        SizeNext(s, xp, f, end);
        f := 2 * f;
        xp := xp + 1;
        if f <= s.c[xp] {
          SizeFound(s, h, w, k, pos, j);
          return;
        }
        f := f - s.c[xp];
        j := j + 1;
      }
      SizeLimit(s, h, w, k, pos, a, j, z);
    } else {
      SizeAtOnce(s, h, w, k, pos, a);
    }
  }

  lemma {:induction false} SpaceIs(s: Space)
    requires s.Ok()
    ensures Complete(s.c, s.g) && 1 <= s.l <= s.g <= 16 && BMAX == 16
    ensures forall n: nat :: Pow2(n) > 0
  {
  }

  lemma {:induction false} SizeStart(s: Space, w: nat, k: nat, pos: nat, a: nat)
    requires s.Ok() && w < k <= s.g && Used(s.c, s.g, k) == pos + (a + 1) * Pow2(s.g - k) && Pow2(k - w) > a + 1
    requires pos < Pow2(s.g) && AtBlock(s.g, pos, w)
    ensures k < s.g && (Pow2(k - w) - (a + 1)) * Pow2(s.g - k) + Used(s.c, s.g, k) == pos + Pow2(s.g - w)
  {
    hide Pow2, Block, Used;
    Pow2Add(k - w, s.g - k);
    var f, p := Pow2(k - w) - (a + 1), Pow2(s.g - k);
    assert (f + (a + 1)) * p == f * p + (a + 1) * p;
    PosBase(s.g, pos, w);
    UsedAll(s.c, s.g);
    Pow2Mono(0, s.g - k);
    MulLess(0, f, p);
  }

  lemma {:induction false} SizeNext(s: Space, xp: nat, f: nat, end: nat)
    requires s.Ok() && xp < s.g && f * Pow2(s.g - xp) + Used(s.c, s.g, xp) == end
    ensures end == Used(s.c, s.g, xp + 1) + (2 * f - s.c[xp + 1]) * Pow2(s.g - (xp + 1))
    ensures 2 * f <= s.c[xp + 1] ==> end <= Used(s.c, s.g, xp + 1)
  {
    UsedStep(s.c, s.g, xp + 1);
    assert Pow2(s.g - xp) == 2 * Pow2(s.g - (xp + 1));
    hide Pow2, Used;
    DoubleLess(f, s.c[xp + 1], Pow2(s.g - (xp + 1)));
  }

  lemma {:induction false} DoubleLess(f: nat, d: nat, p: nat)
    ensures f * (2 * p) == d * p + (2 * f - d) * p
    ensures 2 * f <= d ==> f * (2 * p) <= d * p
  {
    assert (2 * f - d) * p == (2 * f) * p - d * p;
    if 2 * f <= d { MulLessEq(2 * f, d, p); }
  }

  lemma {:induction false} SizeFound(s: Space, h: nat, w: nat, k: nat, pos: nat, j: nat)
    requires s.Ok() && w == Depth(s.l, h) && w < k < w + j < s.g && j < s.l && pos < Pow2(s.g) && LenAt(s.c, s.g, pos) == k
    requires AtBlock(s.g, pos, w) && pos + Pow2(s.g - w) <= Used(s.c, s.g, w + j)
    ensures TableOk(s, Meta(h, Block(s.g, pos, w), j))
  {
    hide LenAt, Pow2, Block, Used, AtBlock;
    PosBase(s.g, pos, w);
    SizeFits(s, h, w, k, pos, j);
    LenAtIs(s.c, s.g, pos);
    if w + s.l < s.g {
      UsedMono(s.c, s.g, k, w + s.l - 1);
    }
  }

  /** The search ends at the limit, or one past it when it began there. */
  lemma {:induction false} SizeLimit(s: Space, h: nat, w: nat, k: nat, pos: nat, a: nat, j: nat, z: nat)
    requires s.Ok() && w == Depth(s.l, h) && w < k < s.g && pos < Pow2(s.g) && LenAt(s.c, s.g, pos) == k
    requires AtBlock(s.g, pos, w) && Used(s.c, s.g, k) == pos + (a + 1) * Pow2(s.g - k) && Pow2(k - w) > a + 1
    requires z == if s.g - w > s.l then s.l else s.g - w
    requires k - w < j && j >= z && (j == z || j == k - w + 1)
    ensures TableOk(s, Meta(h, Block(s.g, pos, w), j))
  {
    hide LenAt, Pow2, Block, Used, AtBlock;
    PosBase(s.g, pos, w);
    LenAtIs(s.c, s.g, pos);
    UsedAll(s.c, s.g);
    SizeStart(s, w, k, pos, a);
    MulPositive(Pow2(k - w) - (a + 1), Pow2(s.g - k));
    if w + s.l < s.g {
      if k >= w + s.l { UsedMono(s.c, s.g, w + s.l, k); UsedMono(s.c, s.g, w + s.l - 1, k - 1); }
      if k < w + s.l { UsedMono(s.c, s.g, k, w + s.l - 1); }
    }
  }

  lemma {:induction false} MulPositive(f: nat, p: nat)
    requires f > 0 && p > 0
    ensures f * p > 0
  {
  }

  // ------------------------------------------------------------- the table loops

  /** i >> w for the reversed code: its bits after the first w. */
  lemma {:induction false} ShiftedCode(v: nat, k: nat, w: nat)
    requires w <= k
    ensures Rev(v, k) / Pow2(w) == Rev(v % Pow2(k - w), k - w) && Rev(v, k) % Pow2(w) == Rev(v / Pow2(k - w), w)
  {
    hide Rev, Pow2;
    RevSplit(v, w, k - w);
    RevBound(v / Pow2(k - w), w);
    DivModUnique(Rev(v, k), Pow2(w), Rev(v % Pow2(k - w), k - w), Rev(v / Pow2(k - w), w));
  }

  /** At the start of a prefix of d bits the code is that prefix and zeros. */
  lemma {:induction false} CodeAtBlock(g: nat, pos: nat, k: nat, d: nat)
    requires d <= k <= g && AtBlock(g, pos, d)
    ensures Block(g, pos, k) == Block(g, pos, d) * Pow2(k - d)
    ensures Rev(Block(g, pos, k), k) == Rev(Block(g, pos, d), d)
  {
    hide Rev, Pow2;
    var b := Block(g, pos, d);
    Pow2Add(k - d, g - k);
    assert b * (Pow2(k - d) * Pow2(g - k)) == (b * Pow2(k - d)) * Pow2(g - k);
    DivModUnique(pos, Pow2(g - k), b * Pow2(k - d), 0);
    RevShift(b, d, k - d);
  }

  /** The index of the link: i >> (w - l) once w has moved on. */
  lemma {:induction false} LinkIndex(s: Space, pos: nat, k: nat, w: nat)
    requires s.Ok() && w + s.l <= k <= s.g && AtBlock(s.g, pos, w + s.l)
    ensures Quotient(Rev(Block(s.g, pos, k), k), Pow2(w)) == LinkCell(s, pos, w + s.l)
  {
    hide Rev, Pow2, Block, AtBlock;
    var d := w + s.l;
    CodeAtBlock(s.g, pos, k, d);
    ShiftedCode(Block(s.g, pos, d), d, w);
  }

  /** x[e] holds the reversed prefix that leads to level e. */
  ghost predicate Patterns(s: Space, x: seq<nat>, pos: nat, h: int) {
    |x| == BMAX + 1 && forall e: nat :: e <= h && e <= BMAX ==> Depth(s.l, e) <= s.g && x[e] == Rev(Block(s.g, pos, Depth(s.l, e)), Depth(s.l, e))
  }

  /** The state between codes: the stack leads to pos, where a code starts that is
      too long for the bits looked at so far only if none of it is covered yet. */
  ghost predicate Between(s: Space, pool: Pool, metas: seq<Meta>, u: seq<nat>, x: seq<nat>, pos: nat, h: int)
    requires s.Ok()
  {
    && |u| == BMAX && |x| == BMAX + 1 && -1 <= h < BMAX
    && if h < 0 then pos == 0 && pool == [] && metas == []
       else Tables(s, pool, metas) && |metas| > 0 && metas[0].h == 0 && metas[0].pv == 0 && Filled(s, pool, metas, pos, h)
            && (pos < Pow2(s.g) ==> Stack(s, pool, metas, u, pos, h) && Patterns(s, x, pos, h))
  }

  ghost predicate Reached(s: Space, pos: nat, h: int)
    requires s.Ok()
  {
    h >= 0 && Depth(s.l, h) + s.l <= s.g ==> AtBlock(s.g, pos, Depth(s.l, h) + s.l)
  }

  lemma {:induction false} LevelsFit(s: Space, h: nat, k: nat)
    requires s.Ok() && Depth(s.l, h) < k <= s.g
    ensures h < BMAX
  {
    DepthAtLeast(s.l, h);
  }

  lemma {:induction false} DepthAtLeast(l: nat, h: nat)
    requires l >= 1
    ensures Depth(l, h) >= h
  {
    if h > 0 { DepthAtLeast(l, h - 1); }
  }

  /** w, which starts one level below zero. */
  function Width(l: nat, h: int): int {
    if h < 0 then -(l as int) else Depth(l, h)
  }

  lemma {:induction false} WidthStep(l: nat, h: int)
    requires h >= -1
    ensures Width(l, h + 1) == Width(l, h) + l == Depth(l, h + 1)
  {
  }

  /** "make tables up to required level" */
  method Deepen(s: Space, pool0: Pool, ghost metas0: seq<Meta>, u0: seq<nat>, x0: seq<nat>, h0: int, w0: int, k: nat, a: nat,
                i: nat, q0: nat, z0: nat, ghost pos: nat)
    returns (pool: Pool, ghost metas: seq<Meta>, u: seq<nat>, x: seq<nat>, h: nat, w: nat, q: nat, z: nat)
    requires s.Ok() && 1 <= k <= s.g && Between(s, pool0, metas0, u0, x0, pos, h0) && Reached(s, pos, h0)
    requires w0 == Width(s.l, h0)
    requires AtCode(s, pos) && LenAt(s.c, s.g, pos) == k && i == Rev(Block(s.g, pos, k), k)
    requires Used(s.c, s.g, k) == pos + (a + 1) * Pow2(s.g - k)
    requires h0 >= 0 && k <= w0 + s.l ==> q0 == u0[h0] < |pool0| && z0 == |pool0[q0]|
    requires h0 < 0 ==> x0[0] == 0
    ensures Between(s, pool, metas, u, x, pos, h) && w == Depth(s.l, h) < k <= w + s.l
    ensures q == u[h] < |pool| && z == |pool[q]|
  {
    hide *;
    pool, metas, u, x, q, z := pool0, metas0, u0, x0, q0, z0;
    var lev, dep := h0, w0;
    SpaceIs(s);
    BetweenIs(s, pool, metas, u, x, pos, lev);
    while k > dep + s.l
      invariant -1 <= lev < |u| && |x| > 0 && Between(s, pool, metas, u, x, pos, lev) && Reached(s, pos, lev)
      invariant dep == Width(s.l, lev)
      invariant lev >= 0 && k <= dep + s.l ==> q == u[lev] < |pool| && z == |pool[q]|
      invariant lev < 0 ==> x[0] == 0
      decreases k - dep
    {
      WidthStep(s.l, lev);
      pool, metas, u, x, q, z := Another(s, pool, metas, u, x, lev, dep + s.l, k, a, i, pos);
      lev := lev + 1;
      dep := dep + s.l;
      BetweenIs(s, pool, metas, u, x, pos, lev);
    }
    if lev < 0 { NotYet(s, k, dep, lev); }
    WidthIs(s.l, lev);
    BetweenIs(s, pool, metas, u, x, pos, lev);
    AtCodeIs(s, pos);
    TopDepth(s, metas, u, pos, lev, k, pool);
    h, w := lev, dep;
  }

  /** One further table, linked from the one above unless it is the first. */
  method Another(s: Space, pool0: Pool, ghost metas0: seq<Meta>, u0: seq<nat>, x0: seq<nat>, h0: int, w: nat, k: nat, a: nat,
                 i: nat, ghost pos: nat)
    returns (pool: Pool, ghost metas: seq<Meta>, u: seq<nat>, x: seq<nat>, q: nat, z: nat)
    requires s.Ok() && 1 <= k <= s.g && -1 <= h0 && Between(s, pool0, metas0, u0, x0, pos, h0) && Reached(s, pos, h0)
    requires w == Depth(s.l, h0 + 1) < k
    requires AtCode(s, pos) && LenAt(s.c, s.g, pos) == k && i == Rev(Block(s.g, pos, k), k)
    requires Used(s.c, s.g, k) == pos + (a + 1) * Pow2(s.g - k)
    requires h0 < 0 ==> x0[0] == 0
    ensures Between(s, pool, metas, u, x, pos, h0 + 1) && Reached(s, pos, h0 + 1)
    ensures q == u[h0 + 1] < |pool| && z == |pool[q]|
  {
    hide *;
    SpaceIs(s);
    BetweenIs(s, pool0, metas0, u0, x0, pos, h0);
    AtCodeIs(s, pos);
    LevelsFit(s, h0 + 1, k);
    AtWhere(s, pos, h0, w);
    var j := ChooseBits(s, h0 + 1, w, k, a, pos);
    z := Pow2(j);
    q := |pool0|;
    u := u0[h0 + 1 := q];
    x := x0;
    if h0 >= 0 {
      StepDepth(s.l, h0);
      LinkIndex(s, pos, k, w - s.l);
      CodeAtBlock(s.g, pos, k, w);
      CreateStep(s, pool0, metas0, u0, pos, h0, j);
      x := x[h0 + 1 := i];
      var r := Link(s.l, j, q);
      var at := Quotient(i, Pow2(w - s.l));
      pool := WithTable(pool0, u0[h0], at, r, j);
      metas := metas0 + [Meta(h0 + 1, Block(s.g, pos, w), j)];
      PatternsMore(s, x0, i, pos, h0);
    } else {
      RootDepth(s);
      FirstTable(s, u, j);
      pool := [Blank(Pow2(j))];
      metas := [Meta(0, 0, j)];
      PatternsFirst(s, x, pos);
    }
    NowBetween(s, pool, metas, u, x, pos, h0 + 1);
    DeeperReached(s, pos, h0 + 1);
  }

  lemma {:induction false} BetweenIs(s: Space, pool: Pool, metas: seq<Meta>, u: seq<nat>, x: seq<nat>, pos: nat, h: int)
    requires s.Ok() && Between(s, pool, metas, u, x, pos, h)
    ensures |u| == BMAX && |x| == BMAX + 1 && -1 <= h < BMAX
    ensures h < 0 ==> pos == 0 && pool == [] && metas == []
    ensures h >= 0 ==> Tables(s, pool, metas) && |metas| == |pool| > 0 && metas[0].h == 0 && metas[0].pv == 0
    ensures h >= 0 ==> Filled(s, pool, metas, pos, h)
    ensures h >= 0 && pos < Pow2(s.g) ==> Stack(s, pool, metas, u, pos, h) && Patterns(s, x, pos, h)
    ensures h >= 0 && pos < Pow2(s.g) ==> u[h] < |pool| && metas[u[h]].h == h && Depth(s.l, h) <= s.g
    ensures h >= 0 && pos < Pow2(s.g) ==> Block(s.g, pos, Depth(s.l, h)) == metas[u[h]].pv
  {
    hide TableOk, LenAt, CellState, Block, Over;
    if h >= 0 && pos < Pow2(s.g) {
      assert Current(s, metas, u, pos, h, u[h]);
      FitsSpace(s, metas[u[h]]);
    }
  }

  lemma {:induction false} NowBetween(s: Space, pool: Pool, metas: seq<Meta>, u: seq<nat>, x: seq<nat>, pos: nat, h: int)
    requires s.Ok() && |u| == BMAX && |x| == BMAX + 1 && 0 <= h < BMAX
    requires Tables(s, pool, metas) && |metas| > 0 && metas[0].h == 0 && metas[0].pv == 0 && Filled(s, pool, metas, pos, h)
    requires pos < Pow2(s.g) ==> Stack(s, pool, metas, u, pos, h) && Patterns(s, x, pos, h)
    ensures Between(s, pool, metas, u, x, pos, h)
  {
  }

  lemma {:induction false} AtWhere(s: Space, pos: nat, h: int, w: nat)
    requires s.Ok() && -1 <= h && Reached(s, pos, h) && w == Depth(s.l, h + 1) <= s.g && (h < 0 ==> pos == 0)
    ensures AtBlock(s.g, pos, w)
  {
    if h < 0 {
      assert Block(s.g, 0, 0) == 0;
    }
  }

  lemma {:induction false} StepDepth(l: nat, h: nat)
    ensures Depth(l, h + 1) == Depth(l, h) + l
  {
  }

  lemma {:induction false} RootDepth(s: Space)
    requires s.Ok()
    ensures Depth(s.l, 0) == 0 && Block(s.g, 0, 0) == 0
  {
  }

  lemma {:induction false} PatternsMore(s: Space, x: seq<nat>, i: nat, pos: nat, h: nat)
    requires Patterns(s, x, pos, h) && Depth(s.l, h + 1) <= s.g && h + 1 <= BMAX
    requires i == Rev(Block(s.g, pos, Depth(s.l, h + 1)), Depth(s.l, h + 1))
    ensures Patterns(s, x[h + 1 := i], pos, h + 1)
  {
    hide Rev, Block, Depth;
  }

  lemma {:induction false} PatternsFirst(s: Space, x: seq<nat>, pos: nat)
    requires |x| == BMAX + 1 && x[0] == 0
    ensures Patterns(s, x, pos, 0)
  {
    hide Block;
  }

  lemma {:induction false} DeeperReached(s: Space, pos: nat, h: nat)
    requires s.Ok() && Depth(s.l, h) <= s.g && AtBlock(s.g, pos, Depth(s.l, h))
    ensures Reached(s, pos, h)
  {
    hide Rev, Pow2;
    var d := Depth(s.l, h);
    if d + s.l <= s.g {
      CodeAtBlock(s.g, pos, d + s.l, d);
      Pow2Add(s.l, s.g - (d + s.l));
      var b, p, q := Block(s.g, pos, d), Pow2(s.l), Pow2(s.g - (d + s.l));
      assert b * (p * q) == (b * p) * q;
    }
  }

  /** The first table is always made. */
  lemma {:induction false} NotYet(s: Space, k: nat, dep: int, lev: int)
    requires lev == -1 && dep == Width(s.l, lev) && k >= 1
    ensures k > dep + s.l
  {
  }

  lemma {:induction false} WidthIs(l: nat, h: int)
    ensures h >= 0 ==> Width(l, h) == Depth(l, h)
  {
  }

  /** The code at pos is longer than the bits that lead to the top table. */
  lemma {:induction false} TopDepth(s: Space, metas: seq<Meta>, u: seq<nat>, pos: nat, h: nat, k: nat, pool: Pool)
    requires s.Ok() && Tables(s, pool, metas) && |u| > h && u[h] < |metas| && metas[u[h]].h == h && Depth(s.l, h) <= s.g
    requires Block(s.g, pos, Depth(s.l, h)) == metas[u[h]].pv && LenAt(s.c, s.g, pos) == k
    ensures Depth(s.l, h) < k
  {
    hide LenAt, Block, Used;
    CellLen(s, metas[u[h]], pos);
  }

  // ------------------------------------------------------------- storing a code

  /** "fill code-like entries with r" */
  method FillEntries(cells: seq<Entry>, first: nat, f: nat, z: nat, r: Entry) returns (cells': seq<Entry>)
    requires z == |cells| && first < f
    ensures |cells'| == |cells|
    ensures forall m :: 0 <= m < |cells| ==> cells'[m] == if m % f == first then r else cells[m]
  {
    cells' := cells;
    var j: nat := first;
    ModFirst(first, f);
    while j < z
      invariant j % f == first && |cells'| == |cells|
      invariant forall m :: 0 <= m < |cells| && m < j ==> cells'[m] == if m % f == first then r else cells[m]
      invariant forall m :: j <= m < |cells| ==> cells'[m] == cells[m]
      decreases z - j
    {
      cells' := cells'[j := r];
      forall m | j < m < j + f ensures m % f != first {
        NotMultiple(j, m, f);
      }
      ModNext(j, f);
      j := j + f;
    }
  }

  lemma {:induction false} ModFirst(a: nat, f: nat)
    requires a < f
    ensures a % f == a
  {
  }

  lemma {:induction false} ModNext(j: nat, f: nat)
    requires f > 0
    ensures (j + f) % f == j % f
  {
    DivModUnique(j + f, f, j / f + 1, j % f);
  }

  lemma {:induction false} NotMultiple(j: nat, m: nat, f: nat)
    requires j < m < j + f
    ensures m % f != j % f
  {
    if m % f == j % f {
      assert (m / f - j / f) * f == m - j;
      MulLess(j / f, m / f, f);
      MulLess(m / f, j / f, f);
    }
  }

  /** The test for a finished table, in terms of the strings. */
  lemma {:induction false} Finished(s: Space, pos: nat, pos': nat, k: nat, w: nat, i': nat)
    requires s.Ok() && w <= k <= s.g && pos < Pow2(s.g) && pos' < Pow2(s.g) && i' == Rev(Block(s.g, pos', k), k)
    ensures Pow2(w) > 0
    ensures And(i', Pow2(w) - 1) == Rev(Block(s.g, pos, w), w) <==> Block(s.g, pos', w) == Block(s.g, pos, w)
  {
    hide Rev, Pow2, Block, And;
    AndMask(i', w);
    ShiftedCode(Block(s.g, pos', k), k, w);
    BlockCoarser(s.g, pos', w, k);
    BlockBound(s.g, pos', w);
    BlockBound(s.g, pos, w);
    RevBound(0, w);
    if Rev(Block(s.g, pos', w), w) == Rev(Block(s.g, pos, w), w) {
      RevInjective(Block(s.g, pos', w), Block(s.g, pos, w), w);
    }
  }

  /** Where a prefix starts, so does each of its extensions by zeros. */
  lemma {:induction false} AtDeeper(g: nat, pos: nat, d: nat, e: nat)
    requires d <= e <= g && AtBlock(g, pos, d)
    ensures AtBlock(g, pos, e)
  {
    hide Rev, Pow2;
    CodeAtBlock(g, pos, e, d);
    Pow2Add(e - d, g - e);
    var b, p, q := Block(g, pos, d), Pow2(e - d), Pow2(g - e);
    assert b * (p * q) == (b * p) * q;
  }

  /** Where the last code ended and its prefix of d bits too, the next prefix
      starts. */
  lemma {:induction false} AtNext(s: Space, pos: nat, d: nat)
    requires s.Ok() && AtCode(s, pos) && d <= LenAt(s.c, s.g, pos) && After(s, pos) < Pow2(s.g)
    requires Block(s.g, After(s, pos), d) != Block(s.g, pos, d)
    ensures AtBlock(s.g, After(s, pos), d)
  {
    hide Rev, Pow2, Block, LenAt, After, AtCode;
    CodeSpan(s, pos, 0);
    var k, last := LenAt(s.c, s.g, pos), After(s, pos) - 1;
    CodeSpan(s, pos, last);
    BlockSame(s.g, pos, last, d, k);
    var b := Block(s.g, pos, d);
    BlockIs(s.g, last, d, b);
    BlockIs(s.g, After(s, pos), d, b);
    OneMore(b, Pow2(s.g - d));
    OneMore(b + 1, Pow2(s.g - d));
    RevBound(0, s.g - d);
    BlockIs(s.g, After(s, pos), d, b + 1);
  }

  lemma {:induction false} AtEnd(s: Space, pos: nat)
    requires s.Ok() && AtCode(s, pos)
    ensures var k := LenAt(s.c, s.g, pos); AtBlock(s.g, After(s, pos), k) && Block(s.g, After(s, pos), k) == Block(s.g, pos, k) + 1
  {
    hide Pow2, Block, LenAt;
    var k := LenAt(s.c, s.g, pos);
    var b := Block(s.g, pos, k);
    OneMore(b, Pow2(s.g - k));
    OneMore(b + 1, Pow2(s.g - k));
    RevBound(0, s.g - k);
    BlockIs(s.g, After(s, pos), k, b + 1);
  }

  /** Backing up leaves nothing covered below the new top's own bits. */
  lemma {:induction false} BackReached(s: Space, pos: nat, h: nat, hh: nat)
    requires s.Ok() && AtCode(s, pos) && hh <= h && Depth(s.l, h) < LenAt(s.c, s.g, pos) <= Depth(s.l, h) + s.l
    requires After(s, pos) < Pow2(s.g) && BackTo(s, pos, After(s, pos), h, hh)
    ensures Reached(s, After(s, pos), hh)
  {
    hide Pow2, Block, LenAt, After, AtCode, AtBlock;
    var k := LenAt(s.c, s.g, pos);
    StepDepth(s.l, hh);
    if hh == h {
      AtEnd(s, pos);
      if Depth(s.l, h) + s.l <= s.g { AtDeeper(s.g, After(s, pos), k, Depth(s.l, h) + s.l); }
    } else {
      DepthMono(s.l, hh, h);
      AtNext(s, pos, Depth(s.l, hh + 1));
    }
  }

  lemma {:induction false} NowBackTo(s: Space, pos: nat, pos': nat, h: nat, hh: nat)
    requires hh <= h && Depth(s.l, h) <= s.g && Depth(s.l, hh) <= s.g
    requires Block(s.g, pos', Depth(s.l, hh)) == Block(s.g, pos, Depth(s.l, hh))
    requires Differs(s, pos, pos', h, hh)
    ensures BackTo(s, pos, pos', h, hh)
  {
    hide Block;
    forall e: nat | e <= hh
      ensures Depth(s.l, e) <= s.g && Block(s.g, pos', Depth(s.l, e)) == Block(s.g, pos, Depth(s.l, e))
    {
      if e < hh { DepthMono(s.l, e, hh); }
      BlockSame(s.g, pos', pos, Depth(s.l, e), Depth(s.l, hh));
    }
  }

  /** The tables above level hh are finished. */
  ghost predicate Differs(s: Space, pos: nat, pos': nat, h: nat, hh: nat) {
    forall e: nat :: hh < e <= h ==> Depth(s.l, e) <= s.g && Block(s.g, pos', Depth(s.l, e)) != Block(s.g, pos, Depth(s.l, e))
  }

  lemma {:induction false} DiffersMore(s: Space, pos: nat, pos': nat, h: nat, hh: nat)
    requires Differs(s, pos, pos', h, hh) && 0 < hh <= h && Depth(s.l, hh) <= s.g
    requires Block(s.g, pos', Depth(s.l, hh)) != Block(s.g, pos, Depth(s.l, hh))
    ensures Differs(s, pos, pos', h, hh - 1)
  {
    hide Block;
  }

  lemma {:induction false} DiffersNone(s: Space, pos: nat, pos': nat, h: nat)
    ensures Differs(s, pos, pos', h, h)
  {
  }

  lemma {:induction false} PatternsKept(s: Space, x: seq<nat>, pos: nat, pos': nat, h: nat, hh: nat)
    requires Patterns(s, x, pos, h) && BackTo(s, pos, pos', h, hh)
    ensures Patterns(s, x, pos', hh)
  {
    hide Block, Rev;
  }

  lemma {:induction false} PatternAt(s: Space, x: seq<nat>, pos: nat, h: nat, e: nat)
    requires Patterns(s, x, pos, h) && e <= h <= BMAX
    ensures Depth(s.l, e) <= s.g && |x| > e && x[e] == Rev(Block(s.g, pos, Depth(s.l, e)), Depth(s.l, e))
  {
  }

  /** "backup over finished tables" */
  method BackUp(s: Space, x: seq<nat>, h0: nat, w0: nat, i: nat, k: nat, ghost pos: nat) returns (h: nat, w: nat)
    requires s.Ok() && w0 == Depth(s.l, h0) < k <= s.g && |x| == BMAX + 1 && h0 < BMAX && Patterns(s, x, pos, h0)
    requires AtCode(s, pos) && LenAt(s.c, s.g, pos) == k
    requires After(s, pos) < Pow2(s.g) ==> i == Rev(Block(s.g, After(s, pos), k), k)
    ensures h <= h0 && w == Depth(s.l, h)
    ensures After(s, pos) < Pow2(s.g) ==> BackTo(s, pos, After(s, pos), h0, h)
  {
    hide *;
    SpaceIs(s);
    AtCodeIs(s, pos);
    h, w := h0, w0;
    DiffersNone(s, pos, After(s, pos), h0);
    PatternAt(s, x, pos, h0, h);
    while And(i, Pow2(w) - 1) != x[h]
      invariant h <= h0 && h < |x| && w == Depth(s.l, h) <= w0
      invariant After(s, pos) < Pow2(s.g) ==> Differs(s, pos, After(s, pos), h0, h)
      invariant x[h] == Rev(Block(s.g, pos, w), w)
      decreases h
    {
      if h == 0 { Bottom(s.l, i, s.g, pos); }
      if After(s, pos) < Pow2(s.g) {
        Finished(s, pos, After(s, pos), k, w, i);
        DiffersMore(s, pos, After(s, pos), h0, h);
      }
      StepDepth(s.l, h - 1);
      h, w := h - 1, w - s.l;
      PatternAt(s, x, pos, h0, h);
    }
    if After(s, pos) < Pow2(s.g) {
      Finished(s, pos, After(s, pos), k, w, i);
      NowBackTo(s, pos, After(s, pos), h0, h);
    }
  }

  /** No bits are looked at before level 0, so the loop stops there. */
  lemma {:induction false} Bottom(l: nat, i: nat, g: nat, pos: nat)
    ensures Depth(l, 0) == 0 && And(i, Pow2(0) - 1) == Rev(Block(g, pos, 0), 0)
  {
    AndNone(i);
  }

  /** Store one code and move on to the next. */
  method PlaceCode(s: Space, pool0: Pool, ghost metas: seq<Meta>, u: seq<nat>, x: seq<nat>, h0: nat, w0: nat, k: nat,
                   i0: nat, q: nat, z: nat, r: Entry, ghost pos: nat)
    returns (pool: Pool, i: nat, h: nat, w: nat)
    requires s.Ok() && Between(s, pool0, metas, u, x, pos, h0) && w0 == Depth(s.l, h0) < k <= w0 + s.l && k <= s.g
    requires q == u[h0] < |pool0| == |metas| && z == |pool0[q]|
    requires AtCode(s, pos) && LenAt(s.c, s.g, pos) == k && i0 == Rev(Block(s.g, pos, k), k)
    requires metas[q].h == h0 && LeafFor(s, metas[q], pos, r)
    ensures Between(s, pool, metas, u, x, After(s, pos), h) && w == Depth(s.l, h) && |pool| == |pool0|
    ensures After(s, pos) < Pow2(s.g) ==> Reached(s, After(s, pos), h) && i == Rev(Block(s.g, After(s, pos), k), k)
    ensures (h == h0 && z == |pool[q]|) || k > w + s.l
  {
    hide *;
    SpaceIs(s);
    AtCodeIs(s, pos);
    BetweenIs(s, pool0, metas, u, x, pos, h0);
    FirstCell(Block(s.g, pos, k), k, w0);
    TableAt(s, pool0, metas, q);
    var cells := FillEntries(pool0[q], Quotient(i0, Pow2(w0)), Pow2(k - w0), z, r);
    pool := pool0[q := cells];
    NowStored(s, metas[q], pool0[q], cells, pos, r, k, w0);
    BlockBound(s.g, pos, k);
    i := NextCode(i0, k, Block(s.g, pos, k));
    NextIs(s, pos, k);
    h, w := BackUp(s, x, h0, w0, i, k, pos);
    StoreStep(s, pool0, pool, metas, u, pos, h0, h, r);
    if After(s, pos) < Pow2(s.g) {
      BackReached(s, pos, h0, h);
      PatternsKept(s, x, pos, After(s, pos), h0, h);
    }
    NowBetween(s, pool, metas, u, x, After(s, pos), h);
    if h < h0 { DepthMono(s.l, h, h0); }
  }

  lemma {:induction false} FirstCell(v: nat, k: nat, w: nat)
    requires w <= k
    ensures Quotient(Rev(v, k), Pow2(w)) < Pow2(k - w)
  {
    hide Rev, Pow2;
    ShiftedCode(v, k, w);
    RevBound(v % Pow2(k - w), k - w);
  }

  lemma {:induction false} TableAt(s: Space, pool: Pool, metas: seq<Meta>, q: nat)
    requires s.Ok() && Tables(s, pool, metas) && q < |pool|
    ensures TableOk(s, metas[q]) && |pool[q]| == Pow2(metas[q].j)
  {
  }

  lemma {:induction false} NowStored(s: Space, t: Meta, cells: seq<Entry>, cells': seq<Entry>, pos: nat, leaf: Entry, k: nat, w: nat)
    requires s.Ok() && TableOk(s, t) && pos < Pow2(s.g) && w == Depth(s.l, t.h) < k == LenAt(s.c, s.g, pos)
    requires |cells'| == |cells| && forall m :: 0 <= m < |cells| ==>
      cells'[m] == if m % Pow2(k - w) == Quotient(Rev(Block(s.g, pos, k), k), Pow2(w)) then leaf else cells[m]
    ensures Stored(s, t, cells, cells', pos, leaf)
  {
    hide Rev, Block, LenAt, Pow2, Used;
    ShiftedCode(Block(s.g, pos, k), k, w);
  }

  lemma {:induction false} NextIs(s: Space, pos: nat, k: nat)
    requires s.Ok() && AtCode(s, pos) && LenAt(s.c, s.g, pos) == k
    ensures After(s, pos) < Pow2(s.g) ==> (Block(s.g, pos, k) + 1) % Pow2(k) == Block(s.g, After(s, pos), k)
  {
    hide Rev, Block, LenAt, Pow2, After;
    AtEnd(s, pos);
    BlockBound(s.g, After(s, pos), k);
    if After(s, pos) < Pow2(s.g) {
      SmallMod(Block(s.g, After(s, pos), k), Pow2(k));
    }
  }

  // ---------------------------------------------------------------- all the codes

  /** What code number t stands for: nothing past the last value, a symbol itself
      below simple, and otherwise an entry of the base and extra-bits lists. */
  function OpOf(v: seq<nat>, n: nat, simple: nat, d: seq<nat>, e: seq<nat>, t: nat): Op {
    if t >= n || t >= |v| then Op(99, 0)
    else if v[t] < simple then Op(if v[t] < 256 then 16 else 15, v[t])
    else if v[t] - simple < |d| && v[t] - simple < |e| then Op(e[v[t] - simple], d[v[t] - simple])
    else Op(99, 0)
  }

  /** Where the codes of k bits have got to. */
  ghost predicate At(s: Space, k: nat, code: nat, pos: nat, p: nat)
    requires s.Ok() && 1 <= k <= s.g
  {
    && 2 * UpTo(s.c, k - 1) <= code <= UpTo(s.c, k) && pos == code * Pow2(s.g - k)
    && p == Num(s.c, k - 1) + code - 2 * UpTo(s.c, k - 1)
  }

  lemma {:induction false} CodeNow(s: Space, k: nat, code: nat, pos: nat, p: nat, a: nat)
    requires s.Ok() && 1 <= k <= s.g && At(s, k, code, pos, p) && code + a + 1 == UpTo(s.c, k)
    ensures pos < Pow2(s.g) && LenAt(s.c, s.g, pos) == k && AtCode(s, pos) && Used(s.c, s.g, k) == pos + (a + 1) * Pow2(s.g - k)
    ensures SlotAt(s.c, s.g, pos) == p < |s.ops| && At(s, k, code + 1, After(s, pos), p + 1)
  {
    hide LenAt, Pow2, SlotAt;
    CodeStarts(s, k, code);
    UsedRest(s, k, code, a);
    NumAtMost(s.c, k, s.g);
  }

  lemma {:induction false} FirstAt(s: Space, k: nat)
    requires s.Ok() && 1 <= k <= s.g && UpTo(s.c, k - 1) == 0 && Num(s.c, k - 1) == 0
    ensures At(s, k, 0, 0, 0) && (k < s.g ==> Block(s.g, 0, k) == 0) && Rev(Block(s.g, 0, k), k) == 0
  {
    RevZero(k);
    RevBound(0, s.g - k);
    assert 0 / Pow2(s.g - k) == 0;
  }

  lemma {:induction false} LastAt(s: Space, code: nat, pos: nat, p: nat)
    requires s.Ok() && At(s, s.g, code, pos, p) && code == UpTo(s.c, s.g)
    ensures pos == Pow2(s.g)
  {
    assert Pow2(s.g - s.g) == 1;
  }

  lemma {:induction false} LongerAt(s: Space, k: nat, code: nat, pos: nat, p: nat)
    requires s.Ok() && 1 <= k < s.g && At(s, k, code, pos, p) && code == UpTo(s.c, k)
    ensures At(s, k + 1, 2 * code, pos, p)
    ensures Rev(Block(s.g, pos, k), k) == Rev(Block(s.g, pos, k + 1), k + 1)
  {
    hide Rev, Pow2, Block;
    var q := Pow2(s.g - (k + 1));
    HalfPower(s.g - k);
    Doubling(code, q);
    WholeBlock(s.g, pos, k, code);
    CodeAtBlock(s.g, pos, k + 1, k);
  }

  lemma {:induction false} WholeBlock(g: nat, pos: nat, k: nat, code: nat)
    requires k <= g && pos == code * Pow2(g - k)
    ensures AtBlock(g, pos, k)
  {
    hide Pow2;
    DivModUnique(pos, Pow2(g - k), code, 0);
  }

  lemma {:induction false} UpToStep(c: Counts, k: nat)
    requires 1 <= k <= BMAX
    ensures UpTo(c, k) == 2 * UpTo(c, k - 1) + c[k]
  {
  }

  /** "Generate the Huffman codes and for each, make the table entries" */
  method MakeTables(s: Space, kmin: nat, v: seq<nat>, n: nat, simple: nat, d: seq<nat>, e: seq<nat>)
    returns (pool: Pool, ghost metas: seq<Meta>)
    requires s.Ok() && 1 <= kmin <= s.l && UpTo(s.c, kmin - 1) == 0 && Num(s.c, kmin - 1) == 0
    requires forall t :: 0 <= t < |s.ops| ==> s.ops[t] == OpOf(v, n, simple, d, e, t)
    ensures Built(s, pool, metas)
  {
    hide *;
    SpaceIs(s);
    var u: seq<nat>, x: seq<nat> := seq(16, _ => 0), seq(17, _ => 0);
    var i: nat, p: nat, q: nat, z: nat := 0, 0, 0, 0;
    var h: int, w: int := -1, -(s.l as int);
    pool, metas := [], [];
    ghost var pos: nat, code: nat := 0, 0;
    var k := kmin;
    FirstAt(s, k);
    NothingYet(s, u, x);
    while k <= s.g
      invariant kmin <= k <= s.g + 1 && |x| == 17 && |u| == 16 && -1 <= h < 16 && w == Width(s.l, h)
      invariant k <= s.g ==> At(s, k, code, pos, p) && code == 2 * UpTo(s.c, k - 1)
      invariant k == s.g + 1 ==> pos == Pow2(s.g)
      invariant Between(s, pool, metas, u, x, pos, h) && (pos < Pow2(s.g) ==> Reached(s, pos, h))
      invariant h < 0 ==> x[0] == 0
      invariant pos < Pow2(s.g) && k <= s.g ==> i == Rev(Block(s.g, pos, k), k)
      invariant h >= 0 && k <= w + s.l ==> q == u[h] < |pool| && z == |pool[q]|
    {
      var a := s.c[k];
      UpToStep(s.c, k);
      while a != 0
        invariant At(s, k, code, pos, p) && code + a == UpTo(s.c, k) && |x| == 17 && |u| == 16 && -1 <= h < 16
        invariant w == Width(s.l, h) && Between(s, pool, metas, u, x, pos, h) && (pos < Pow2(s.g) ==> Reached(s, pos, h))
        invariant h < 0 ==> x[0] == 0
        invariant pos < Pow2(s.g) ==> i == Rev(Block(s.g, pos, k), k)
        invariant h >= 0 && k <= w + s.l ==> q == u[h] < |pool| && z == |pool[q]|
        decreases a
      {
        a := a - 1;
        CodeNow(s, k, code, pos, p, a);
        var op := OpOf(v, n, simple, d, e, p);
        pool, metas, u, x, h, w, i, q, z := OneCode(s, pool, metas, u, x, h, w, k, a, i, q, z, op, pos);
        p := p + 1;
        pos, code := After(s, pos), code + 1;
      }
      if k < s.g { LongerAt(s, k, code, pos, p); } else { LastAt(s, code, pos, p); }
      code := 2 * code;
      k := k + 1;
    }
    BetweenIs(s, pool, metas, u, x, pos, h);
    AllDone(s, pool, metas, h);
  }

  lemma {:induction false} NothingYet(s: Space, u: seq<nat>, x: seq<nat>)
    requires s.Ok() && |u| == 16 && |x| == 17
    ensures Between(s, [], [], u, x, 0, -1) && Reached(s, 0, -1) && Width(s.l, -1) == -(s.l as int)
  {
  }

  /** The body of the loop over codes. */
  method OneCode(s: Space, pool0: Pool, ghost metas0: seq<Meta>, u0: seq<nat>, x0: seq<nat>, h0: int, w0: int, k: nat, a: nat,
                 i0: nat, q0: nat, z0: nat, op: Op, ghost pos: nat)
    returns (pool: Pool, ghost metas: seq<Meta>, u: seq<nat>, x: seq<nat>, h: int, w: int, i: nat, q: nat, z: nat)
    requires s.Ok() && 1 <= k <= s.g && |x0| == 17 && |u0| == 16 && -1 <= h0 < 16
    requires Between(s, pool0, metas0, u0, x0, pos, h0) && Reached(s, pos, h0) && w0 == Width(s.l, h0)
    requires AtCode(s, pos) && LenAt(s.c, s.g, pos) == k && i0 == Rev(Block(s.g, pos, k), k)
    requires Used(s.c, s.g, k) == pos + (a + 1) * Pow2(s.g - k)
    requires h0 >= 0 && k <= w0 + s.l ==> q0 == u0[h0] < |pool0| && z0 == |pool0[q0]|
    requires h0 < 0 ==> x0[0] == 0
    requires 1 <= LenAt(s.c, s.g, pos) && 0 <= SlotAt(s.c, s.g, pos) < |s.ops| && op == s.ops[SlotAt(s.c, s.g, pos)]
    ensures |x| == 17 && |u| == 16 && 0 <= h < 16 && w == Width(s.l, h)
    ensures Between(s, pool, metas, u, x, After(s, pos), h)
    ensures After(s, pos) < Pow2(s.g) ==> Reached(s, After(s, pos), h) && i == Rev(Block(s.g, After(s, pos), k), k)
    ensures k <= w + s.l ==> q == u[h] < |pool| && z == |pool[q]|
  {
    hide *;
    SpaceIs(s);
    AtCodeIs(s, pos);
    pool, metas, u, x, h, w, q, z := Deepen(s, pool0, metas0, u0, x0, h0, w0, k, a, i0, q0, z0, pos);
    BetweenIs(s, pool, metas, u, x, pos, h);
    var r := Leaf(k - w, op.e, op.n);
    NowLeaf(s, metas[q], pos, k, w, op);
    ghost var h1 := h;
    pool, i, h, w := PlaceCode(s, pool, metas, u, x, h, w, k, i0, q, z, r, pos);
    BetweenIs(s, pool, metas, u, x, After(s, pos), h);
    WidthIs(s.l, h);
  }

  lemma {:induction false} NowLeaf(s: Space, t: Meta, pos: nat, k: nat, w: nat, op: Op)
    requires s.Ok() && pos < Pow2(s.g) && w == Depth(s.l, t.h) < k == LenAt(s.c, s.g, pos)
    requires 0 <= SlotAt(s.c, s.g, pos) < |s.ops| && op == s.ops[SlotAt(s.c, s.g, pos)]
    ensures LeafFor(s, t, pos, Leaf(k - w, op.e, op.n))
  {
  }
}
