/** inflate_codes: literals and copies by the tables, until the end of the block. */
module InflateTokens {
  import opened Bits
  import opened BitString
  import opened BwtSpec
  import opened CodeSpace
  import opened HuftTables
  import opened HuftLookup
  import opened InflateTables
  import opened InflateWindow
  import opened InflateInput

  // -------------------------------------------------- walking the tables

  /** A code, and the tables made for it. */
  datatype Decoder = Decoder(b: CodeLengths, simple: nat, d: seq<nat>, e: seq<nat>, s: Space, pool: Pool, metas: seq<Meta>)
  {
    ghost predicate Ready() {
      Built(s, pool, metas) && MadeFor(s, b, simple, d, e) && Fine(s.c, s.g, s.l)
    }

    function OpOf(sym: nat): Op {
      SymbolOp(sym, simple, d, e)
    }
  }

  /** No entry uses up more bits than were asked for to find it. */
  lemma {:induction false} EntryFits(s: Space, pool: Pool, metas: seq<Meta>, q: nat, m: nat)
    requires Built(s, pool, metas) && q < |pool| && m < |pool[q]| && pool[q][m] != Unset
    ensures pool[q][m].b <= Asked(s, metas[q])
    ensures pool[q][m].Link? ==>
      pool[q][m].table < |pool| && pool[q][m].b == s.l
      && Depth(s.l, metas[pool[q][m].table].h) == Depth(s.l, metas[q].h) + s.l && Asked(s, metas[pool[q][m].table]) == pool[q][m].bits
  {
    hide Used, LenAt, SlotAt, Rev, Pow2, CellStart, Block;
    var t := metas[q];
    assert TableOk(s, t) && CellOk(s, metas, t, m, pool[q][m]);
    var w := Depth(s.l, t.h);
    var v := CellStart(s.g, w, t.pv, t.j, m);
    StartIn(s.g, w, t.pv, t.j, m);
    if t.j < s.l {
      BlockIs(s.g, v, w, t.pv);
      LongerAbove(s.c, s.g, v, w + t.j);
    }
  }

  /** The lookup at the head of the loop, with the do-while that goes on from table to
      table: the symbol whose code comes next in the stream, or 99 if it is one that
      stands for nothing. */
  method Walk(z: BitBuffer, pool: Pool, bits: nat, ghost k: Decoder, ghost sym: nat) returns (e: nat, n: nat)
    requires z.Valid() && k.Ready() && pool == k.pool && bits == k.s.l
    requires sym < |k.b| && k.b[sym] > 0 && Spelled(z.src, z.At(), Codeword(k.b, sym))
    modifies z
    ensures z.Valid() && Op(e, n) == k.OpOf(sym) && (e != 99 ==> z.At() == old(z.At()) + k.b[sym])
  {
    hide *;
    ghost var p, stream, op, used := z.At(), Ahead(z.src, z.At(), 16), k.OpOf(sym), k.b[sym] as nat;
    WalkStart(z.src, p, k, sym);
    var q: nat, b: nat := 0, bits;
    ghost var at: nat := 0;
    z.NeedBits(b);
    while true
      invariant z.Valid() && z.At() == p + at && z.bk >= b && Onward(k, q, b, stream, at, op, used)
      decreases 16 - at
    {
      OnwardFacts(k, q, b, stream, at, op, used);
      AheadSlice(z.src, p, at, b);
      var m := z.Peek(b);
      match pool[q][m] {
        case Leaf(len, e', n') =>
          if e' != 99 { z.DumpBits(len); }
          return e', n';
        case Link(len, more, table) =>
          z.DumpBits(len);
          z.NeedBits(more);
          q, b, at := table, more, at + len;
      }
    }
  }

  /** The walk is at table q, which the next b bits index, and will come to op. */
  ghost predicate Onward(k: Decoder, q: nat, b: nat, stream: seq<Bit>, at: nat, op: Op, used: nat) {
    && k.Ready() && q < |k.pool| == |k.metas| && b == Asked(k.s, k.metas[q]) && at == Depth(k.s.l, k.metas[q].h)
    && |stream| == 16 && at <= 16 && Look(k.pool, q, b, stream, at) == HuftLookup.Found(op, used)
  }

  lemma {:induction false} WalkStart(src: Source, p: nat, k: Decoder, sym: nat)
    requires k.Ready() && sym < |k.b| && k.b[sym] > 0 && Spelled(src, p, Codeword(k.b, sym))
    ensures Onward(k, 0, k.s.l, Ahead(src, p, 16), 0, k.OpOf(sym), k.b[sym]) && k.s.l <= 16
  {
    hide Fine, MadeFor, Look, Codeword, LenAt, Used, CellOk, TableOk, Tables;
    BuiltShape(k.s, k.pool, k.metas);
    Lengths16(k, sym);
    SpelledPrefix(src, p, Codeword(k.b, sym), 16);
    CodewordDecoded(k.s, k.pool, k.metas, k.b, k.simple, k.d, k.e, sym, Ahead(src, p, 16));
    FromRoot(k.s, k.pool, k.metas, Ahead(src, p, 16));
  }

  lemma {:induction false} Lengths16(k: Decoder, sym: nat)
    requires k.Ready() && sym < |k.b|
    ensures k.b[sym] <= k.s.g <= 16 && 1 <= k.s.l <= k.s.g
  {
    hide Built, Fine, UpTo;
  }

  /** What the entry found does: a leaf is the end, a link leads further on. */
  lemma {:induction false} OnwardFacts(k: Decoder, q: nat, b: nat, stream: seq<Bit>, at: nat, op: Op, used: nat)
    requires Onward(k, q, b, stream, at, op, used)
    ensures at + b <= 16 == |stream| && q < |k.pool| && Low(stream[at..at + b]) < |k.pool[q]|
    ensures var x := k.pool[q][Low(stream[at..at + b])];
      && x != Unset && x.b <= b
      && (x.Leaf? ==> op == Op(x.e, x.n) && used == at + x.b)
      && (x.Link? ==> x.b > 0 && x.bits <= 16 && at + x.b <= 16 && Onward(k, x.table, x.bits, stream, at + x.b, op, used))
  {
    hide Fine, MadeFor, Built, Low;
    var x := k.pool[q][Low(stream[at..at + b])];
    EntryFits(k.s, k.pool, k.metas, q, Low(stream[at..at + b]));
    if x.Link? {
      assert Look(k.pool, x.table, x.bits, stream, at + x.b) == HuftLookup.Found(op, used);
      LookFits(k.pool, x.table, x.bits, stream, at + x.b);
    }
  }

  lemma {:induction false} LookFits(pool: Pool, q: nat, bits: nat, stream: seq<Bit>, at: nat)
    requires Look(pool, q, bits, stream, at).Found?
    ensures at + bits <= |stream|
  {
    hide Low;
  }

  lemma {:induction false} AheadSlice(src: Source, p: nat, at: nat, b: nat)
    requires at + b <= 16
    ensures Ahead(src, p, 16)[at..at + b] == Ahead(src, p + at, b)
  {
    hide Ahead;
    AheadSplit(src, p, at, 16 - at);
    AheadSplit(src, p + at, b, 16 - at - b);
    Slice(Ahead(src, p, at), Ahead(src, p + at, b), Ahead(src, p + at + b, 16 - at - b));
  }

  lemma {:induction false} Slice(a: seq<Bit>, b: seq<Bit>, c: seq<Bit>)
    ensures (a + (b + c))[|a|..|a| + |b|] == b
  {
  }

  // ------------------------------------------------------- literals and copies

  const CPLENS: seq<nat> := [3, 4, 5, 6, 7, 8, 9, 10, 11, 13, 15, 17, 19, 23, 27, 31,
                             35, 43, 51, 59, 67, 83, 99, 115, 131, 163, 195, 227, 258, 0, 0]
  const CPLEXT: seq<nat> := [0, 0, 0, 0, 0, 0, 0, 0, 1, 1, 1, 1, 2, 2, 2, 2,
                             3, 3, 3, 3, 4, 4, 4, 4, 5, 5, 5, 5, 0, 99, 99]
  const CPDIST: seq<nat> := [1, 2, 3, 4, 5, 7, 9, 13, 17, 25, 33, 49, 65, 97, 129, 193,
                             257, 385, 513, 769, 1025, 1537, 2049, 3073, 4097, 6145,
                             8193, 12289, 16385, 24577]
  const CPDEXT: seq<nat> := [0, 0, 0, 0, 1, 1, 2, 2, 3, 3, 4, 4, 5, 5, 6, 6,
                             7, 7, 8, 8, 9, 9, 10, 10, 11, 11, 12, 12, 13, 13]

  /** A byte, or a copy: the code of its length with its extra bits, and the code of its
      distance with its. */
  datatype Token = Literal(c: Byte) | Copy(ls: nat, lx: nat, ds: nat, dx: nat)
  {
    predicate Ok() {
      Copy? ==> ls < 29 && lx < Pow2(LengthExtra()) && ds < 30 && dx < Pow2(DistanceExtra())
    }

    /** How many extra bits there are. */
    function LengthExtra(): nat
      requires Copy? && ls < 29
    {
      CPLEXT[ls]
    }

    function DistanceExtra(): nat
      requires Copy? && ds < 30
    {
      CPDEXT[ds]
    }

    function Length(): nat
      requires Copy? && Ok()
    {
      CPLENS[ls] + lx
    }

    function Distance(): nat
      requires Copy? && Ok()
    {
      CPDIST[ds] + dx
    }

    /** The history with what the token adds. */
    function Onto(h: seq<Byte>): seq<Byte>
      requires Ok() && |h| >= WSIZE
    {
      match this
      case Literal(c) => h + [c]
      case Copy(_, _, _, _) => DistanceRange(this); Copied(h, Distance(), Length())
    }

    /** All the codes that it needs are there. */
    predicate Coded(ll: CodeLengths, dd: CodeLengths) {
      && Ok() && |ll| > 256
      && match this
         case Literal(c) => ll[c] > 0
         case Copy(_, _, _, _) => 257 + ls < |ll| && ll[257 + ls] > 0 && ds < |dd| && dd[ds] > 0
    }

    /** Section 3.2.5 of RFC 1951. */
    function Bits(ll: CodeLengths, dd: CodeLengths): seq<Bit>
      requires Coded(ll, dd)
    {
      match this
      case Literal(c) => Codeword(ll, c)
      case Copy(_, _, _, _) => Codeword(ll, 257 + ls) + (LowBits(lx, LengthExtra()) + (Codeword(dd, ds) + LowBits(dx, DistanceExtra())))
    }
  }

  lemma {:induction false} DistanceRange(t: Token)
    requires t.Copy? && t.Ok()
    ensures 1 <= t.Distance() <= WSIZE && 3 <= t.Length() <= 258
  {
    hide Pow2;
    LengthsEnd(t.ls);
    DistancesEnd(t.ds);
  }

  lemma {:induction false} LengthsEnd(ls: nat)
    requires ls < 29
    ensures CPLEXT[ls] <= 5 && 3 <= CPLENS[ls] && CPLENS[ls] + Pow2(CPLEXT[ls]) <= 259
  {
    hide Pow2;
    SmallPowers();
  }

  lemma {:induction false} DistancesEnd(ds: nat)
    requires ds < 30
    ensures CPDEXT[ds] <= 13 && 1 <= CPDIST[ds] && CPDIST[ds] + Pow2(CPDEXT[ds]) <= WSIZE + 1
  {
    hide Pow2;
    SmallPowers();
  }

  lemma {:induction false} SmallPowers()
    ensures Pow2(0) == 1 && Pow2(1) == 2 && Pow2(2) == 4 && Pow2(3) == 8 && Pow2(4) == 16 && Pow2(5) == 32 && Pow2(6) == 64
    ensures Pow2(7) == 128 && Pow2(8) == 256 && Pow2(9) == 512 && Pow2(10) == 1024 && Pow2(11) == 2048 && Pow2(12) == 4096
    ensures Pow2(13) == 8192
  {
    Pow2Values();
    assert Pow2(6) == 64 && Pow2(7) == 128;
    assert Pow2(9) == 512 && Pow2(10) == 1024;
    assert Pow2(11) == 2048 && Pow2(12) == 4096 && Pow2(13) == 8192;
  }

  /** The lengths of a code end where those of the next begin, but for the last, which
      has 258 for itself; groups of four codes have one extra bit more than the four
      before. */
  lemma {:induction false} NextLength(ls: nat)
    requires ls < 29
    ensures CPLENS[0] == 3 && CPLENS[28] == 258
    ensures ls < 27 ==> CPLENS[ls + 1] == CPLENS[ls] + Pow2(CPLEXT[ls])
    ensures ls == 27 ==> CPLENS[ls] + Pow2(CPLEXT[ls]) == 259
    ensures CPLEXT[ls] == if ls < 8 || ls == 28 then 0 else (ls - 4) / 4
  {
    hide Pow2;
    SmallPowers();
  }

  /** So do the distances, all of them, and pairs of codes have one extra bit more. */
  lemma {:induction false} NextDistance(ds: nat)
    requires ds < 30
    ensures CPDIST[0] == 1 && CPDIST[29] + Pow2(CPDEXT[29]) == WSIZE + 1
    ensures ds < 29 ==> CPDIST[ds + 1] == CPDIST[ds] + Pow2(CPDEXT[ds])
    ensures CPDEXT[ds] == if ds < 2 then 0 else (ds - 2) / 2
  {
    hide CPDIST, CPDEXT, Pow2;
    TableSizes();
    DistanceEnds();
    DistanceExtras(ds);
    if ds < 15 { NearDistance(ds); } else if ds < 29 { FarDistance(ds); }
  }

  lemma {:induction false} DistanceEnds()
    ensures |CPDIST| == |CPDEXT| == 30 && CPDIST[0] == 1 && CPDIST[29] + Pow2(CPDEXT[29]) == WSIZE + 1
  {
    hide Pow2;
    SmallPowers();
  }

  lemma {:induction false} DistanceExtras(ds: nat)
    requires ds < 30
    ensures CPDEXT[ds] == if ds < 2 then 0 else (ds - 2) / 2
  {
  }

  lemma {:induction false} NearDistance(ds: nat)
    requires ds < 15
    ensures CPDIST[ds + 1] == CPDIST[ds] + Pow2(CPDEXT[ds])
  {
    hide Pow2;
    SmallPowers();
  }

  lemma {:induction false} FarDistance(ds: nat)
    requires 15 <= ds < 29
    ensures CPDIST[ds + 1] == CPDIST[ds] + Pow2(CPDEXT[ds])
  {
    hide Pow2;
    SmallPowers();
  }

  /** No length but 258 is that of two codes. */
  lemma {:induction false} LengthsApart(ls: nat, ls': nat)
    requires ls < ls' < 28
    ensures |CPLENS| == |CPLEXT| == 31 && CPLENS[ls] + Pow2(CPLEXT[ls]) <= CPLENS[ls']
    decreases ls'
  {
    hide CPLENS, CPLEXT, Pow2;
    TableSizes();
    var before := ls' - 1;
    NextLength(before);
    if ls < before { LengthsApart(ls, before); }
  }

  /** And no distance. */
  lemma {:induction false} DistancesApart(ds: nat, ds': nat)
    requires ds < ds' < 30
    ensures |CPDIST| == |CPDEXT| == 30 && CPDIST[ds] + Pow2(CPDEXT[ds]) <= CPDIST[ds']
    decreases ds'
  {
    hide CPDIST, CPDEXT, Pow2;
    TableSizes();
    var before := ds' - 1;
    NextDistance(before);
    if ds < before { DistancesApart(ds, before); }
  }

  /** One token only gives a length other than 258 at a distance. */
  lemma {:induction false} TokenOnce(t: Token, u: Token)
    requires t.Copy? && t.Ok() && u.Copy? && u.Ok()
    ensures t.Length() == u.Length() != 258 && t.Distance() == u.Distance() ==> t == u
  {
    hide CPLENS, CPLEXT, CPDIST, CPDEXT, Pow2;
    TableSizes();
    NextLength(28);
    if t.ls < u.ls < 28 { LengthsApart(t.ls, u.ls); }
    if u.ls < t.ls < 28 { LengthsApart(u.ls, t.ls); }
    if t.ds < u.ds { DistancesApart(t.ds, u.ds); }
    if u.ds < t.ds { DistancesApart(u.ds, t.ds); }
    One();
  }

  /** Every length of three to 258 at every distance up to 32K has a token. */
  lemma {:induction false} TokenFor(length: nat, distance: nat) returns (t: Token)
    requires 3 <= length <= 258 && 1 <= distance <= WSIZE
    ensures t.Copy? && t.Ok() && t.Length() == length && t.Distance() == distance
  {
    hide CPLENS, CPLEXT, CPDIST, CPDEXT, Pow2;
    TableSizes();
    NextLength(0);
    NextDistance(0);
    var ls: nat, ds: nat := 0, 0;
    while ls < 28 && CPLENS[ls + 1] <= length
      invariant ls <= 28 && CPLENS[ls] <= length
    {
      ls := ls + 1;
    }
    while ds < 29 && CPDIST[ds + 1] <= distance
      invariant ds <= 29 && CPDIST[ds] <= distance
    {
      ds := ds + 1;
    }
    NextLength(ls);
    NextDistance(ds);
    One();
    t := Copy(ls, length - CPLENS[ls], ds, distance - CPDIST[ds]);
  }

  lemma {:induction false} One()
    ensures Pow2(0) == 1
  {
  }

  // ------------------------------------------------------------------ a block

  /** What can follow the tokens: the end of the block, or one of two symbols that stand
      for nothing. */
  ghost predicate AllCoded(ts: seq<Token>, end: nat, ll: CodeLengths, dd: CodeLengths) {
    && (end == 256 || 286 <= end < 288) && end < |ll| && ll[end] > 0
    && forall i :: 0 <= i < |ts| ==> ts[i].Coded(ll, dd)
  }

  /** The tokens of a block, and what follows them. */
  ghost function AllBits(ts: seq<Token>, end: nat, ll: CodeLengths, dd: CodeLengths): seq<Bit>
    requires AllCoded(ts, end, ll, dd)
    decreases |ts|
  {
    if ts == [] then Codeword(ll, end) else ts[0].Bits(ll, dd) + AllBits(ts[1..], end, ll, dd)
  }

  /** The history with what they add. */
  ghost function AllOnto(ts: seq<Token>, h: seq<Byte>): (r: seq<Byte>)
    requires (forall i :: 0 <= i < |ts| ==> ts[i].Ok()) && |h| >= WSIZE
    decreases |ts|
  {
    if ts == [] then h else GrowsBy(ts[0], h); AllOnto(ts[1..], ts[0].Onto(h))
  }

  lemma {:induction false} GrowsBy(t: Token, h: seq<Byte>)
    requires t.Ok() && |h| >= WSIZE
    ensures |t.Onto(h)| >= |h|
  {
    if t.Copy? { DistanceRange(t); }
  }

  /** The tables of a block are those of its two codes; of the second there are none if
      it has no codes. */
  ghost predicate Fits(kl: Decoder, kd: Decoder, ll: CodeLengths, dd: CodeLengths) {
    && kl.Ready() && kl.b == ll && kl.simple == 257 && kl.d == CPLENS && kl.e == CPLEXT
    && (kd.Ready() || forall i :: 0 <= i < |dd| ==> dd[i] == 0)
    && kd.b == dd && kd.simple == 0 && kd.d == CPDIST && kd.e == CPDEXT
  }

  lemma {:induction false} CodesMean(kl: Decoder, kd: Decoder, ll: CodeLengths, dd: CodeLengths, t: Token)
    requires Fits(kl, kd, ll, dd) && t.Coded(ll, dd)
    ensures t.Literal? ==> kl.OpOf(t.c) == Op(16, t.c)
    ensures t.Copy? ==> kl.OpOf(257 + t.ls).e == t.LengthExtra() <= 5 && t.Length() == kl.OpOf(257 + t.ls).n + t.lx
    ensures t.Copy? ==> kd.Ready() && kd.OpOf(t.ds).e == t.DistanceExtra() <= 13 && t.Distance() == kd.OpOf(t.ds).n + t.dx
  {
    hide Decoder.Ready, Pow2, CPLENS, CPLEXT, CPDIST, CPDEXT;
    TableSizes();
    if t.Copy? {
      LengthsEnd(t.ls);
      DistancesEnd(t.ds);
    }
  }

  lemma {:induction false} TableSizes()
    ensures |CPLENS| == |CPLEXT| == 31 && |CPDIST| == |CPDEXT| == 30
  {
  }

  lemma {:induction false} EndMeans(kl: Decoder, kd: Decoder, ll: CodeLengths, dd: CodeLengths, end: nat)
    requires Fits(kl, kd, ll, dd)
    ensures kl.Ready() && kl.b == ll && kd.b == dd && kl.OpOf(256) == Op(15, 256)
    ensures 286 <= end < 288 ==> kl.OpOf(end).e == 99
  {
    hide Decoder.Ready;
  }

  /** The first token comes first. */
  lemma {:induction false} TokenFirst(src: Source, p: nat, ts: seq<Token>, end: nat, ll: CodeLengths, dd: CodeLengths)
    requires AllCoded(ts, end, ll, dd) && Spelled(src, p, AllBits(ts, end, ll, dd))
    ensures ts == [] ==> Spelled(src, p, Codeword(ll, end)) && AllBits(ts, end, ll, dd) == Codeword(ll, end)
    ensures ts != [] ==> ts[0].Coded(ll, dd) && AllCoded(ts[1..], end, ll, dd) && Spelled(src, p, ts[0].Bits(ll, dd))
    ensures ts != [] ==> Spelled(src, p + |ts[0].Bits(ll, dd)|, AllBits(ts[1..], end, ll, dd))
    ensures ts != [] ==> |AllBits(ts, end, ll, dd)| == |ts[0].Bits(ll, dd)| + |AllBits(ts[1..], end, ll, dd)|
  {
    hide Token.Coded, Token.Bits, Codeword, Spelled;
    if ts != [] { SpelledSplit(src, p, ts[0].Bits(ll, dd), AllBits(ts[1..], end, ll, dd)); }
  }

  /** The parts of a copy come one after another. */
  lemma {:induction false} CopyParts(src: Source, p: nat, t: Token, ll: CodeLengths, dd: CodeLengths)
    requires t.Copy? && t.Coded(ll, dd) && Spelled(src, p, t.Bits(ll, dd))
    ensures var p1 := p + ll[257 + t.ls]; var p2 := p1 + t.LengthExtra(); var p3 := p2 + dd[t.ds];
      && Spelled(src, p, Codeword(ll, 257 + t.ls)) && Low(Ahead(src, p1, t.LengthExtra())) == t.lx
      && Spelled(src, p2, Codeword(dd, t.ds)) && Low(Ahead(src, p3, t.DistanceExtra())) == t.dx
      && |t.Bits(ll, dd)| == ll[257 + t.ls] as int + t.LengthExtra() + dd[t.ds] as int + t.DistanceExtra()
  {
    hide Codeword, LowBits, Ahead, Pow2, Token.LengthExtra, Token.DistanceExtra, Low, Spelled;
    var a, x, b, y := Codeword(ll, 257 + t.ls), LowBits(t.lx, t.LengthExtra()), Codeword(dd, t.ds), LowBits(t.dx, t.DistanceExtra());
    SpelledSplit(src, p, a, x + (b + y));
    SpelledSplit(src, p + |a|, x, b + y);
    SpelledSplit(src, p + |a| + |x|, b, y);
    SpelledLow(src, p + |a|, t.lx, t.LengthExtra());
    SpelledLow(src, p + |a| + |x| + |b|, t.dx, t.DistanceExtra());
  }

  lemma {:induction false} LiteralPart(t: Token, ll: CodeLengths, dd: CodeLengths)
    requires t.Literal? && t.Coded(ll, dd)
    ensures t.Bits(ll, dd) == Codeword(ll, t.c) && |t.Bits(ll, dd)| == ll[t.c]
  {
  }

  /** inflate_codes: on the bits of tokens it does what they say, and stops after the end
      of the block, or with an error at a symbol that stands for nothing. */
  method InflateCodes(z: BitBuffer, w: Window, tl: Pool, td: Pool, bl: nat, bd: nat, ghost kl: Decoder, ghost kd: Decoder,
                      ghost ll: CodeLengths, ghost dd: CodeLengths, ghost ts: seq<Token>, ghost end: nat)
    returns (r: nat)
    requires z.Valid() && w.Valid() && Fits(kl, kd, ll, dd) && tl == kl.pool && bl == kl.s.l
    requires kd.Ready() ==> td == kd.pool && bd == kd.s.l
    requires AllCoded(ts, end, ll, dd) && Spelled(z.src, z.At(), AllBits(ts, end, ll, dd))
    modifies z, w, w.slide
    ensures z.Valid() && w.Valid() && r == (if end == 256 then 0 else 1)
    ensures r == 0 ==> z.At() == old(z.At()) + |AllBits(ts, end, ll, dd)|
    ensures |old(w.history)| >= WSIZE && w.history == AllOnto(ts, old(w.history))
  {
    hide *;
    w.ValidIs();
    ghost var p0, h0 := z.At(), w.history;
    ghost var left := ts;
    r := 1;
    CodedOk(ts, end, ll, dd);
    while true
      invariant z.Valid() && w.Valid() && |w.history| >= WSIZE && |h0| >= WSIZE
      invariant AllCoded(left, end, ll, dd) && Spelled(z.src, z.At(), AllBits(left, end, ll, dd))
      invariant z.At() + |AllBits(left, end, ll, dd)| == p0 + |AllBits(ts, end, ll, dd)|
      invariant (forall i :: 0 <= i < |left| ==> left[i].Ok()) && AllOnto(left, w.history) == AllOnto(ts, h0)
      decreases |left|
    {
      ghost var sym := NextSymbol(z.src, z.At(), left, end, kl, kd, ll, dd);
      OntoFirst(left, w.history);
      var e, n := Walk(z, tl, bl, kl, sym);
      if e == 16 {
        w.Put(n);
      } else {
        if e == 99 { return; }
        if e == 15 { break; }
        var x := z.Take(e);
        var e', n' := Walk(z, td, bd, kd, left[0].ds);
        if e' == 99 { return; }
        var y := z.Take(e');
        w.Copy(n + x, n' + y);
      }
      left := left[1..];
      CodedOk(left, end, ll, dd);
    }
    r := 0;
  }

  lemma {:induction false} CodedOk(ts: seq<Token>, end: nat, ll: CodeLengths, dd: CodeLengths)
    requires AllCoded(ts, end, ll, dd)
    ensures forall i :: 0 <= i < |ts| ==> ts[i].Ok()
  {
    hide Token.Ok;
  }

  lemma {:induction false} OntoFirst(ts: seq<Token>, h: seq<Byte>)
    requires (forall i :: 0 <= i < |ts| ==> ts[i].Ok()) && |h| >= WSIZE
    ensures ts == [] ==> AllOnto(ts, h) == h
    ensures ts != [] ==> (forall i :: 0 <= i < |ts[1..]| ==> ts[1..][i].Ok()) && |ts[0].Onto(h)| >= |h|
    ensures ts != [] ==> AllOnto(ts, h) == AllOnto(ts[1..], ts[0].Onto(h))
    ensures ts != [] && ts[0].Literal? ==> ts[0].Onto(h) == h + [ts[0].c]
    ensures ts != [] && ts[0].Copy? ==> 1 <= ts[0].Distance() <= WSIZE && ts[0].Onto(h) == Copied(h, ts[0].Distance(), ts[0].Length())
  {
    hide Copied, Token.Ok;
    if ts != [] {
      GrowsBy(ts[0], h);
      if ts[0].Copy? { DistanceRange(ts[0]); }
    }
  }

  /** The symbol that comes next, what it stands for, and what follows it. */
  lemma {:induction false} NextSymbol(src: Source, p: nat, ts: seq<Token>, end: nat, kl: Decoder, kd: Decoder, ll: CodeLengths, dd: CodeLengths)
    returns (sym: nat)
    requires Fits(kl, kd, ll, dd) && AllCoded(ts, end, ll, dd) && Spelled(src, p, AllBits(ts, end, ll, dd))
    ensures kl.Ready() && sym < |kl.b| && kl.b[sym] > 0 && Spelled(src, p, Codeword(kl.b, sym))
    ensures ts == [] ==> kl.OpOf(sym).e == (if end == 256 then 15 else 99) && |AllBits(ts, end, ll, dd)| == kl.b[sym]
    ensures ts != [] ==> AllCoded(ts[1..], end, ll, dd)
    ensures ts != [] && ts[0].Literal? ==>
      kl.OpOf(sym) == Op(16, ts[0].c) && Spelled(src, p + kl.b[sym], AllBits(ts[1..], end, ll, dd))
      && |AllBits(ts, end, ll, dd)| == kl.b[sym] as int + |AllBits(ts[1..], end, ll, dd)|
    ensures ts != [] && ts[0].Copy? ==>
      var t := ts[0];
      var op := kl.OpOf(sym);
      var p1 := p + kl.b[sym];
      var p2 := p1 + op.e;
      && kd.Ready() && t.Ok() && op.e < 15 && t.Length() == op.n + Low(Ahead(src, p1, op.e))
      && t.ds < |kd.b| && kd.b[t.ds] > 0 && Spelled(src, p2, Codeword(kd.b, t.ds)) && kd.OpOf(t.ds).e < 15
      && var op' := kd.OpOf(t.ds);
      var p3 := p2 + kd.b[t.ds];
      && t.Distance() == op'.n + Low(Ahead(src, p3, op'.e))
      && Spelled(src, p3 + op'.e, AllBits(ts[1..], end, ll, dd))
      && |AllBits(ts, end, ll, dd)| == p3 + op'.e - p + |AllBits(ts[1..], end, ll, dd)|
  {
    hide Decoder.Ready, Codeword, Spelled, Ahead, LowBits, Low, AllBits, Decoder.OpOf, Token.Bits, Token.Length, Token.Distance,
         Token.LengthExtra, Token.DistanceExtra, Pow2;
    TokenFirst(src, p, ts, end, ll, dd);
    EndMeans(kl, kd, ll, dd, end);
    if ts == [] {
      sym := end;
    } else {
      var t := ts[0];
      CodesMean(kl, kd, ll, dd, t);
      if t.Literal? {
        sym := t.c;
        LiteralPart(t, ll, dd);
      } else {
        sym := 257 + t.ls;
        CopyParts(src, p, t, ll, dd);
      }
    }
  }
}
