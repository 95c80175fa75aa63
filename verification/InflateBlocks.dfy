/** inflate: stored, fixed and dynamic blocks up to the last one, and what they leave in
    the output. */
module InflateBlocks {
  import opened Bits
  import opened BitString
  import opened BwtSpec
  import opened CodeSpace
  import opened HuftTables
  import opened HuftLookup
  import opened InflateTables
  import opened InflateWindow
  import opened InflateInput
  import opened InflateTokens

  // ------------------------------------------------------------- stored blocks

  /** The next byte boundary. */
  function Aligned(p: nat): (q: nat)
    ensures p <= q < p + 8 && q % 8 == 0
  {
    (p + 7) / 8 * 8
  }

  lemma {:induction false} AlignedIs(p: nat, q: nat)
    requires p <= q < p + 8 && q % 8 == 0
    ensures Aligned(p) == q
  {
  }

  function BytesFrom(src: Source, i: nat, n: nat): (b: seq<Byte>)
    ensures |b| == n
  {
    if n == 0 then [] else BytesFrom(src, i, n - 1) + [src(i + n - 1)]
  }

  /** inflate_stored: refused exactly when the second length is not the complement of
      the first; otherwise so many bytes are copied. */
  method InflateStored(z: BitBuffer, w: Window) returns (r: nat)
    requires z.Valid() && w.Valid()
    modifies z, w, w.slide
    ensures z.Valid() && w.Valid()
    ensures var p := Aligned(old(z.At()));
      var n := Low(Ahead(z.src, p, 16));
      && r == (if Low(Ahead(z.src, p + 16, 16)) == 0xffff - n then 0 else 1)
      && (r == 0 ==> z.At() == p + 32 + 8 * n && w.history == old(w.history) + BytesFrom(z.src, p / 8 + 4, n))
      && (r != 0 ==> w.history == old(w.history))
  {
    hide *;
    ghost var p0, h0 := z.At(), w.history;
    z.Boundary();
    z.DumpBits(z.bk % 8);
    AlignedIs(p0, z.At());
    ghost var p := z.At();
    Sixteen();
    var n := z.Take(16);
    z.NeedBits(16);
    var c := z.Peek(16);
    if c != 0xffff - n { return 1; }
    z.DumpBits(16);
    NoBytes(z.src, p / 8 + 4, h0);
    for i := 0 to n
      invariant z.Valid() && w.Valid() && z.At() == p + 32 + 8 * i && w.history == h0 + BytesFrom(z.src, p / 8 + 4, i)
    {
      z.NeedBits(8);
      var b := z.Peek(8);
      NextByte(z.src, p, i);
      w.Put(b);
      z.DumpBits(8);
      MoreBytes(z.src, p / 8 + 4, i, h0);
    }
    r := 0;
  }

  lemma {:induction false} Sixteen()
    ensures Pow2(16) == 0x1_0000
  {
    Pow2Values();
  }

  lemma {:induction false} NoBytes(src: Source, i: nat, h: seq<Byte>)
    ensures h + BytesFrom(src, i, 0) == h
  {
  }

  lemma {:induction false} MoreBytes(src: Source, i: nat, n: nat, h: seq<Byte>)
    ensures h + BytesFrom(src, i, n) + [src(i + n)] == h + BytesFrom(src, i, n + 1)
  {
  }

  lemma {:induction false} NextByte(src: Source, p: nat, i: nat)
    requires p % 8 == 0
    ensures Low(Ahead(src, p + 32 + 8 * i, 8)) == src(p / 8 + 4 + i) && Pow2(8) == 256
  {
    hide Low, Ahead;
    Pow2Values();
    assert p + 32 + 8 * i == 8 * (p / 8 + 4 + i);
    ByteAhead(src, p / 8 + 4 + i);
  }

  // ---------------------------------------------- which code sets huft_build accepts

  /** How often each length occurs. */
  ghost function CountsOf(b: CodeLengths): (c: Counts)
    ensures Counted(b, c)
  {
    seq(17, k requires 0 <= k < 17 => CountNat(b, k))
  }

  ghost predicate NoCodes(b: CodeLengths) {
    forall i :: 0 <= i < |b| ==> b[i] == 0
  }

  /** A code that leaves no string without a meaning. */
  ghost predicate Full(b: CodeLengths) {
    exists g: nat :: Complete(CountsOf(b), g) && forall i :: 0 <= i < |b| ==> b[i] <= g
  }

  /** A single code, of one bit. */
  ghost predicate OneBit(b: CodeLengths) {
    Count(b, 1) == 1 && forall i :: 0 <= i < |b| ==> b[i] <= 1
  }

  ghost predicate Usable(b: CodeLengths) {
    NoCodes(b) || Full(b) || OneBit(b)
  }

  lemma {:induction false} CountsUnique(b: CodeLengths, c: Counts)
    requires Counted(b, c)
    ensures c == CountsOf(b)
  {
  }

  /** What the tables say of the lengths they were made for. */
  lemma {:induction false} MadeFull(s: Space, b: CodeLengths, simple: nat, d: seq<nat>, e: seq<nat>)
    requires MadeFor(s, b, simple, d, e)
    ensures 1 <= s.g <= 16 && Complete(s.c, s.g) && s.c[s.g] >= Count(b, s.g) && UpTo(CountsOf(b), s.g) == Pow2(s.g) - (s.c[s.g] - Count(b, s.g))
    ensures s.c[s.g] == Count(b, s.g) ==> Complete(CountsOf(b), s.g) && Full(b)
    ensures forall g: nat :: Complete(CountsOf(b), g) && (forall i :: 0 <= i < |b| ==> b[i] <= g) ==> g == s.g
  {
    hide Count, Pow2, OpPlaced, Num;
    var c := CountsOf(b);
    UpToBelow(s.c, c, s.g - 1);
    forall g: nat | Complete(c, g) && (forall i :: 0 <= i < |b| ==> b[i] <= g) ensures g == s.g {
      LongestOccurs(b, g);
      LongestOccurs(b, s.g);
    }
  }

  lemma {:induction false} LongestOccurs(b: Text, g: nat)
    requires Count(b, g) > 0
    ensures exists i :: 0 <= i < |b| && b[i] == g
  {
    if b[|b| - 1] != g { LongestOccurs(b[..|b| - 1], g); }
  }

  /** huft_build returns 0 if and only if the code is full, or a single one of one bit, or
      empty. */
  lemma {:induction false} AcceptedIff(b: CodeLengths, result: nat, pool: Pool, s: Space, simple: nat, d: seq<nat>, e: seq<nat>)
    requires NoCodes(b) <==> pool == [] && result == 0
    requires pool == [] ==> result == 0 || result == 2
    requires pool != [] ==> MadeFor(s, b, simple, d, e)
    requires pool != [] ==> result == if s.c[s.g] > Count(b, s.g) && s.g != 1 then 1 else 0
    requires result == 2 <==> exists c: Counts, g: nat :: Counted(b, c) && g <= BMAX && Oversubscribed(c, g)
    ensures result == 0 <==> Usable(b)
    ensures pool == [] && result == 0 <==> NoCodes(b)
  {
    hide Count, Pow2, OpPlaced, Num, UpTo, MadeFor;
    if pool != [] {
      MadeFull(s, b, simple, d, e);
      MadeOne(s, b, simple, d, e);
    } else if result == 2 {
      var c: Counts, g: nat :| Counted(b, c) && g <= BMAX && Oversubscribed(c, g);
      CountsUnique(b, c);
      OverNotFull(b, g);
    }
  }

  lemma {:induction false} MadeOne(s: Space, b: CodeLengths, simple: nat, d: seq<nat>, e: seq<nat>)
    requires MadeFor(s, b, simple, d, e)
    ensures s.g == 1 ==> Full(b) || OneBit(b)
    ensures OneBit(b) ==> s.g == 1
    ensures s.c[s.g] > Count(b, s.g) ==> !Full(b)
  {
    hide OpPlaced, Num;
    MadeFull(s, b, simple, d, e);
    var c := CountsOf(b);
    assert UpTo(s.c, 1) == 2 * UpTo(s.c, 0) + s.c[1];
    if OneBit(b) && s.g != 1 {
      LongestOccurs(b, s.g);
    }
  }

  lemma {:induction false} OverNotFull(b: CodeLengths, g: nat)
    requires g <= BMAX && Oversubscribed(CountsOf(b), g)
    ensures !Full(b) && !OneBit(b)
  {
    hide Count, CountsOf, UpTo, Pow2;
    var c := CountsOf(b);
    if Full(b) {
      var g': nat :| Complete(c, g') && forall i :: 0 <= i < |b| ==> b[i] <= g';
      if g <= g' { StaysOver(c, g, g'); } else { NoLonger(b, g', g); }
    }
    if OneBit(b) {
      OneOnly(b, c);
      if g == 0 { StaysOver(c, 0, 1); } else { NoLonger(b, 1, g); }
    }
  }

  lemma {:induction false} OneOnly(b: CodeLengths, c: Counts)
    requires OneBit(b) && Counted(b, c)
    ensures UpTo(c, 1) == 1 < Pow2(1)
  {
    hide Count;
    assert UpTo(c, 0) == 0;
  }

  /** Without longer codes there cannot come to be too many. */
  lemma {:induction false} NoLonger(b: CodeLengths, g: nat, k: nat)
    requires g <= k <= BMAX && (forall i :: 0 <= i < |b| ==> b[i] <= g) && UpTo(CountsOf(b), g) <= Pow2(g)
    ensures UpTo(CountsOf(b), k) <= Pow2(k)
  {
    hide Count, CountsOf;
    if k > g {
      NoLonger(b, g, k - 1);
      NotThere(b, k);
      assert CountsOf(b)[k] == Count(b, k);
    }
  }

  lemma {:induction false} NotThere(b: Text, k: nat)
    requires forall i :: 0 <= i < |b| ==> b[i] < k
    ensures Count(b, k) == 0
  {
    if b != [] { NotThere(b[..|b| - 1], k); }
  }

  // ------------------------------------------------------- the lengths of dynamic blocks

  /** What the code-length codes of section 3.2.7 of RFC 1951 stand for: a length, three
      to six more of the last one, three to ten zeros, or eleven to 138. */
  datatype Item = Len(v: nat) | Again(x: nat) | Zeros(x: nat) | MoreZeros(x: nat)
  {
    predicate Ok() {
      match this
      case Len(v) => v < 16
      case Again(x) => x < 4
      case Zeros(x) => x < 8
      case MoreZeros(x) => x < 128
    }

    function Symbol(): nat {
      match this
      case Len(v) => v
      case Again(_) => 16
      case Zeros(_) => 17
      case MoreZeros(_) => 18
    }

    function Extra(): nat {
      match this
      case Len(_) => 0
      case Again(_) => 2
      case Zeros(_) => 3
      case MoreZeros(_) => 7
    }

    function Number(): nat {
      match this
      case Len(_) => 0
      case Again(x) => x
      case Zeros(x) => x
      case MoreZeros(x) => x
    }

    /** How many lengths it gives, and which; that is also the last one then. */
    function Times(): nat {
      match this
      case Len(_) => 1
      case Again(x) => 3 + x
      case Zeros(x) => 3 + x
      case MoreZeros(x) => 11 + x
    }

    function Value(last: nat): nat {
      match this
      case Len(v) => v
      case Again(_) => last
      case _ => 0
    }

    predicate Coded(cl: CodeLengths) {
      Ok() && Symbol() < |cl| && cl[Symbol()] > 0
    }

    function Bits(cl: CodeLengths): seq<Bit>
      requires Coded(cl)
    {
      Codeword(cl, Symbol()) + LowBits(Number(), Extra())
    }
  }

  function Same(v: nat, n: nat): (s: seq<nat>)
    ensures |s| == n && forall i :: 0 <= i < n ==> s[i] == v
  {
    seq(n, _ => v)
  }

  /** The lengths that items give. */
  function Lengths(items: seq<Item>, last: nat): seq<nat>
    decreases |items|
  {
    if items == [] then []
    else Same(items[0].Value(last), items[0].Times()) + Lengths(items[1..], items[0].Value(last))
  }

  ghost predicate AllItems(items: seq<Item>, cl: CodeLengths) {
    forall i :: 0 <= i < |items| ==> items[i].Coded(cl)
  }

  ghost function ItemBits(items: seq<Item>, cl: CodeLengths): seq<Bit>
    requires AllItems(items, cl)
    decreases |items|
  {
    if items == [] then [] else items[0].Bits(cl) + ItemBits(items[1..], cl)
  }

  /** The lookup of a code that one table decodes. */
  method LookOnce(z: BitBuffer, pool: Pool, bits: nat, ghost k: Decoder, ghost sym: nat) returns (n: nat)
    requires z.Valid() && k.Ready() && pool == k.pool && bits == k.s.l == k.s.g
    requires sym < |k.b| && k.b[sym] > 0 && Spelled(z.src, z.At(), Codeword(k.b, sym))
    modifies z
    ensures z.Valid() && z.At() == old(z.At()) + k.b[sym] && n == k.OpOf(sym).n
  {
    hide *;
    ghost var p, stream, op, used := z.At(), Ahead(z.src, z.At(), 16), k.OpOf(sym), k.b[sym] as nat;
    WalkStart(z.src, p, k, sym);
    z.NeedBits(bits);
    OnwardFacts(k, 0, bits, stream, 0, op, used);
    AheadSlice(z.src, p, 0, bits);
    var m := z.Peek(bits);
    LeafOnly(k, m);
    var x := pool[0][m];
    z.DumpBits(x.b);
    n := x.n;
  }

  /** When a lookup takes the longest code, the first table leads no further. */
  lemma {:induction false} LeafOnly(k: Decoder, m: nat)
    requires k.Ready() && k.s.l == k.s.g && |k.pool| > 0 && m < |k.pool[0]|
    ensures !k.pool[0][m].Link?
  {
    hide Used, LenAt, SlotAt, Rev, Pow2, CellStart, Block, MadeFor, Fine;
    var s, t := k.s, k.metas[0];
    assert TableOk(s, t) && CellOk(s, k.metas, t, m, k.pool[0][m]);
    StartIn(s.g, Depth(s.l, t.h), t.pv, t.j, m);
    LenAtIs(s.c, s.g, CellStart(s.g, Depth(s.l, t.h), t.pv, t.j, m));
  }

  /** The code-length code's table. */
  ghost predicate LengthTable(k: Decoder, cl: CodeLengths) {
    k.Ready() && k.b == cl && k.simple == 19 && k.d == [] && k.e == [] && k.s.l == k.s.g
  }

  lemma {:induction false} ItemFirst(src: Source, p: nat, items: seq<Item>, cl: CodeLengths, k: Decoder, last: nat)
    requires items != [] && AllItems(items, cl) && Spelled(src, p, ItemBits(items, cl)) && LengthTable(k, cl) && |cl| <= 19
    ensures k.Ready() && k.s.l == k.s.g && k.b == cl
    ensures var t := items[0]; var p1 := p + |t.Bits(cl)|;
      && t.Coded(cl) && t.Ok() && t.Symbol() < |cl| && cl[t.Symbol()] > 0 && k.OpOf(t.Symbol()).n == t.Symbol() && Spelled(src, p, Codeword(cl, t.Symbol()))
      && Low(Ahead(src, p + cl[t.Symbol()], t.Extra())) == t.Number() && p1 == p + cl[t.Symbol()] + t.Extra()
      && AllItems(items[1..], cl) && Spelled(src, p1, ItemBits(items[1..], cl))
      && |ItemBits(items, cl)| == |t.Bits(cl)| + |ItemBits(items[1..], cl)|
  {
    hide Codeword, LowBits, Ahead, Low, Spelled, Same, Decoder.Ready;
    var t := items[0];
    SpelledSplit(src, p, t.Bits(cl), ItemBits(items[1..], cl));
    SpelledSplit(src, p, Codeword(cl, t.Symbol()), LowBits(t.Number(), t.Extra()));
    NumberFits(t);
    SpelledLow(src, p + cl[t.Symbol()], t.Number(), t.Extra());
  }

  lemma {:induction false} NumberFits(t: Item)
    requires t.Ok()
    ensures t.Number() < Pow2(t.Extra())
  {
    SmallPowers();
  }

  /** `while (j--) ll[i++] = v` */
  method Append(ll: seq<nat>, v: nat, n: nat) returns (more: seq<nat>)
    ensures more == ll + Same(v, n)
  {
    more := ll;
    for i := 0 to n
      invariant more == ll + Same(v, i)
    {
      more := more + [v];
    }
  }

  /** How many lengths all but the last item give. */
  function AllButLast(items: seq<Item>, last: nat): nat
    requires items != []
  {
    |Lengths(items[..|items| - 1], last)|
  }

  lemma {:induction false} LastItem(items: seq<Item>, last: nat)
    requires items != []
    ensures |items| > 1 ==>
      AllButLast(items, last) == items[0].Times() + AllButLast(items[1..], items[0].Value(last))
  {
    if |items| > 1 {
      var init := items[..|items| - 1];
      assert init[1..] == items[1..][..|items| - 2];
    }
  }

  /** The loop that reads the lengths of both codes: it stops when there are n or more,
      and more are an error. */
  method ReadLengths(z: BitBuffer, tl: Pool, bl: nat, n: nat, ghost k: Decoder, ghost cl: CodeLengths, ghost items: seq<Item>)
    returns (r: nat, ll: seq<nat>)
    requires z.Valid() && LengthTable(k, cl) && |cl| == 19 && tl == k.pool && bl == k.s.l
    requires AllItems(items, cl) && Spelled(z.src, z.At(), ItemBits(items, cl))
    requires Enough(items, n)
    modifies z
    ensures z.Valid() && r == (if |Lengths(items, 0)| == n then 0 else 1)
    ensures r == 0 ==> ll == Lengths(items, 0) && z.At() == old(z.At()) + |ItemBits(items, cl)|
  {
    hide *;
    ghost var p0, left := z.At(), items;
    EnoughIs(items, n);
    var last: nat := 0;
    r, ll := 0, [];
    assert [] + Lengths(items, 0) == Lengths(items, 0);
    while |ll| < n
      invariant z.Valid() && AllItems(left, cl) && Spelled(z.src, z.At(), ItemBits(left, cl))
      invariant z.At() + |ItemBits(left, cl)| == p0 + |ItemBits(items, cl)|
      invariant ll + Lengths(left, last) == Lengths(items, 0)
      invariant left == [] ==> |ll| == n
      invariant left != [] ==> |ll| + AllButLast(left, last) < n
      decreases |left|
    {
      LastItem(left, last);
      ItemFirst(z.src, z.At(), left, cl, k, last);
      ItemAdds(ll, left, last);
      r, ll, last := ReadItem(z, tl, bl, ll, last, n, k, cl, left[0]);
      if r != 0 { return; }
      left := left[1..];
      NoItems(left, last, cl);
    }
    NoItems(left, last, cl);
  }

  lemma {:induction false} EnoughIs(items: seq<Item>, n: nat)
    requires Enough(items, n)
    ensures items != [] && AllButLast(items, 0) < n <= |Lengths(items, 0)|
  {
  }

  /** One code, with its extra bits, and the lengths it gives. */
  method ReadItem(z: BitBuffer, tl: Pool, bl: nat, ll0: seq<nat>, last0: nat, n: nat, ghost k: Decoder, ghost cl: CodeLengths,
                  ghost t: Item)
    returns (r: nat, ll: seq<nat>, last: nat)
    requires z.Valid() && k.Ready() && k.b == cl && tl == k.pool && bl == k.s.l == k.s.g && |ll0| < n
    requires t.Ok() && t.Symbol() < |cl| && cl[t.Symbol()] > 0 && Spelled(z.src, z.At(), Codeword(cl, t.Symbol()))
    requires k.OpOf(t.Symbol()).n == t.Symbol() && Low(Ahead(z.src, z.At() + cl[t.Symbol()], t.Extra())) == t.Number()
    modifies z
    ensures z.Valid() && r == (if |ll0| + t.Times() > n then 1 else 0)
    ensures r == 0 ==> ll == ll0 + Same(t.Value(last0), t.Times()) && last == t.Value(last0)
    ensures r == 0 ==> z.At() == old(z.At()) + cl[t.Symbol()] + t.Extra()
  {
    hide *;
    ItemKinds(t, last0);
    r, ll, last := 0, ll0, last0;
    var j := LookOnce(z, tl, bl, k, t.Symbol());
    if j < 16 {
      OneSame(j);
      ll, last := ll + [j], j;
    } else if j == 16 {
      var x := z.Take(2);
      if |ll| + 3 + x > n { r := 1; return; }
      ll := Append(ll, last, 3 + x);
    } else if j == 17 {
      var x := z.Take(3);
      if |ll| + 3 + x > n { r := 1; return; }
      ll := Append(ll, 0, 3 + x);
      last := 0;
    } else {
      var x := z.Take(7);
      if |ll| + 11 + x > n { r := 1; return; }
      ll := Append(ll, 0, 11 + x);
      last := 0;
    }
  }

  lemma {:induction false} NoItems(items: seq<Item>, last: nat, cl: CodeLengths)
    requires AllItems(items, cl)
    ensures items == [] ==> Lengths(items, last) == [] && ItemBits(items, cl) == []
  {
  }

  lemma {:induction false} OneSame(v: nat)
    ensures Same(v, 1) == [v]
  {
  }

  /** What the first item adds, and that it is no more than all of them. */
  lemma {:induction false} ItemAdds(ll: seq<nat>, items: seq<Item>, last: nat)
    requires items != []
    ensures var v, more := items[0].Value(last), items[0].Times();
      && ll + Lengths(items, last) == ll + Same(v, more) + Lengths(items[1..], v)
      && |ll| + more <= |ll + Lengths(items, last)|
  {
    hide Same;
  }

  lemma {:induction false} ItemKinds(t: Item, last: nat)
    requires t.Ok()
    ensures t.Len? ==> t.Symbol() == t.v == t.Value(last) < 16 && t.Times() == 1 && t.Extra() == 0
    ensures t.Again? ==> t.Symbol() == 16 && t.Times() == 3 + t.Number() && t.Value(last) == last && t.Extra() == 2
    ensures t.Zeros? ==> t.Symbol() == 17 && t.Times() == 3 + t.Number() && t.Value(last) == 0 && t.Extra() == 3
    ensures t.MoreZeros? ==> t.Symbol() == 18 && t.Times() == 11 + t.Number() && t.Value(last) == 0 && t.Extra() == 7
  {
  }

  // --------------------------------------------------------- making the tables

  /** huft_build: whether the code is accepted, and its tables. */
  method MakeDecoder(b: CodeLengths, simple: nat, d: seq<nat>, e: seq<nat>, m: nat)
    returns (result: nat, pool: Pool, bits: nat, ghost k: Decoder)
    ensures (result == 0 <==> Usable(b)) && (pool == [] && result == 0 <==> NoCodes(b)) && k.pool == pool
    ensures k.b == b && k.simple == simple && k.d == d && k.e == e
    ensures pool == [] ==> result == 0 || result == 2
    ensures pool != [] ==> Built(k.s, pool, k.metas) && MadeFor(k.s, b, simple, d, e) && bits == k.s.l && (bits >= m || bits == k.s.g)
    ensures pool != [] ==> result == if k.s.c[k.s.g] > Count(b, k.s.g) && k.s.g != 1 then 1 else 0
    ensures (result == 2 ==> pool == []) && result == BuildCode(b)
  {
    hide *;
    var s;
    ghost var metas;
    result, pool, bits, s, metas := Build(b, simple, d, e, m);
    k := Decoder(b, simple, d, e, s, pool, metas);
    NoCodesIs(b);
    AcceptedIff(b, result, pool, s, simple, d, e);
    TooManyIs(b);
    BuildCodeIs(b);
  }

  /** 1 for a set that leaves strings without a meaning, 2 for one that has too many
      codes. */
  ghost function BuildCode(b: CodeLengths): nat {
    if Usable(b) then 0 else if TooMany(b) then 2 else 1
  }

  lemma {:induction false} BuildCodeIs(b: CodeLengths)
    ensures BuildCode(b) == if Usable(b) then 0 else if TooMany(b) then 2 else 1
  {
    hide Usable, TooMany;
  }

  /** More codes than there is room for. */
  ghost predicate TooMany(b: CodeLengths) {
    exists g: nat :: g <= BMAX && Oversubscribed(CountsOf(b), g)
  }

  lemma {:induction false} TooManyIs(b: CodeLengths)
    ensures (exists c: Counts, g: nat :: Counted(b, c) && g <= BMAX && Oversubscribed(c, g)) <==> TooMany(b)
  {
    hide Oversubscribed, CountsOf;
    if c: Counts, g: nat :| Counted(b, c) && g <= BMAX && Oversubscribed(c, g) {
      CountsUnique(b, c);
    }
    assert Counted(b, CountsOf(b));
  }

  lemma {:induction false} NoCodesIs(b: CodeLengths)
    ensures NoCodes(b) <==> forall i :: 0 <= i < |b| ==> b[i] == 0
  {
  }

  /** A lookup of at least half the longest code is right. */
  lemma {:induction false} WideEnough(k: Decoder)
    requires Built(k.s, k.pool, k.metas) && MadeFor(k.s, k.b, k.simple, k.d, k.e) && k.s.g <= 2 * k.s.l
    ensures k.Ready()
  {
    hide Tables, CellOk, OpPlaced, Fine;
    HalfFine(k.s.c, k.s.g, k.s.l);
  }

  lemma {:induction false} LongestIsOne(k: Decoder, n: nat)
    requires MadeFor(k.s, k.b, k.simple, k.d, k.e) && forall i :: 0 <= i < |k.b| ==> k.b[i] <= n
    ensures k.s.g <= n && 1 <= k.s.l <= k.s.g <= 16
  {
    hide OpPlaced;
    LongestOccurs(k.b, k.s.g);
  }

  /** And one wider than the number of codes. */
  lemma {:induction false} ManyEnough(k: Decoder)
    requires Built(k.s, k.pool, k.metas) && MadeFor(k.s, k.b, k.simple, k.d, k.e) && |k.b| <= 30
    requires k.s.l >= 6 || k.s.l == k.s.g
    requires !(k.s.c[k.s.g] > Count(k.b, k.s.g) && k.s.g != 1)
    ensures k.Ready()
  {
    hide Tables, CellOk, OpPlaced, Fine, Count, Num, UpTo, Pow2;
    var s := k.s;
    if s.g <= 2 * s.l {
      HalfFine(s.c, s.g, s.l);
    } else {
      FewCodes(k);
      SmallPowers();
      Pow2Mono(6, s.l);
      FewFine(s.c, s.g, s.l);
    }
  }

  lemma {:induction false} FewCodes(k: Decoder)
    requires MadeFor(k.s, k.b, k.simple, k.d, k.e) && k.s.c[k.s.g] == Count(k.b, k.s.g) && k.s.g <= 16
    ensures Num(k.s.c, k.s.g) <= |k.b|
  {
    hide OpPlaced, Count;
    var c := CountsOf(k.b);
    UpToBelow(k.s.c, c, k.s.g - 1);
    CountAll(k.b, c);
    NumAtMost(c, k.s.g, BMAX);
  }

  // ------------------------------------------------------------- dynamic blocks

  /** The order of the code-length codes. */
  const BORDER: seq<nat> := [16, 17, 18, 0, 8, 7, 9, 6, 10, 5, 11, 4, 12, 3, 13, 2, 14, 1, 15]

  /** The header of a dynamic block: so many code-length codes, their lengths, so many
      literal and distance codes, and the items that give the lengths of those, ll and dd,
      if they give the right number. */
  datatype Plan = Plan(nb: nat, cl: CodeLengths, nl: nat, nd: nat, items: seq<Item>, ll: CodeLengths, dd: CodeLengths)
  {
    ghost predicate Ok() {
      && 4 <= nb <= 19 && |cl| == 19 && (forall i :: 0 <= i < 19 ==> cl[i] < 8)
      && (forall j :: nb <= j < 19 ==> cl[BORDER[j]] == 0) && 257 <= nl <= 288 && 1 <= nd <= 32
      && AllItems(items, cl) && (Reads() ==> Enough(items, nl + nd)) && (Reads() && Exact() ==> Halved(Lengths(items, 0)))
    }

    /** inflate_dynamic gets as far as reading the items. */
    ghost predicate Reads() {
      nl <= 286 && nd <= 30 && Usable(cl)
    }

    /** They give no more lengths than there are codes. */
    ghost predicate Exact() {
      |Lengths(items, 0)| == nl + nd
    }

    ghost predicate Halved(lens: seq<nat>) {
      lens == ll + dd && |ll| == nl && |dd| == nd
    }

    /** inflate_dynamic takes it. */
    ghost predicate Accepted() {
      Reads() && Exact() && Usable(ll) && Usable(dd)
    }

    /** What inflate_dynamic returns: 1 for too many codes or lengths, and otherwise what
        huft_build does for the first set that it refuses. */
    ghost function Result(): nat {
      if nl > 286 || nd > 30 then 1 else if !Usable(cl) then BuildCode(cl)
      else if !Exact() then 1 else if !Usable(ll) then BuildCode(ll) else BuildCode(dd)
    }

    ghost function Bits(): seq<Bit>
      requires Ok()
    {
      LowBits(nl - 257, 5) + (LowBits(nd - 1, 5) + (LowBits(nb - 4, 4) + (BorderBits(cl, 0, nb) + ItemBits(items, cl))))
    }
  }

  /** The last of the items is the one that brings the lengths to n, or above. */
  ghost predicate Enough(items: seq<Item>, n: nat) {
    items != [] && AllButLast(items, 0) < n <= |Lengths(items, 0)|
  }

  function BorderBits(cl: CodeLengths, j: nat, nb: nat): seq<Bit>
    requires j <= nb <= 19 == |cl|
    decreases nb - j
  {
    if j == nb then [] else BorderAt(j); LowBits(cl[BORDER[j]], 3) + BorderBits(cl, j + 1, nb)
  }

  lemma {:induction false} BorderAt(j: nat)
    requires j < 19
    ensures |BORDER| == 19 && BORDER[j] < 19
  {
  }

  /** The order: the codes that repeat, then the lengths from 8 outwards, alternately
      above and below. */
  lemma {:induction false} BorderRule(j: nat)
    requires j < 19
    ensures j < 3 ==> BORDER[j] == 16 + j
    ensures j == 3 ==> BORDER[j] == 0
    ensures j >= 4 ==> BORDER[j] == if j % 2 == 0 then 8 + (j - 4) / 2 else 7 - (j - 5) / 2
  {
  }

  /** Every code-length code has its place in the order. */
  lemma {:induction false} BorderOf(v: nat) returns (j: nat)
    requires v < 19
    ensures j < 19 && BORDER[j] == v
  {
    j := [3, 17, 15, 13, 11, 9, 7, 5, 4, 6, 8, 10, 12, 14, 16, 18, 0, 1, 2][v];
  }

  lemma {:induction false} BorderOnce(i: nat, j: nat)
    requires i < 19 && j < 19 && BORDER[i] == BORDER[j]
    ensures i == j
  {
    assert [3, 17, 15, 13, 11, 9, 7, 5, 4, 6, 8, 10, 12, 14, 16, 18, 0, 1, 2][BORDER[i]] == i;
    assert [3, 17, 15, 13, 11, 9, 7, 5, 4, 6, 8, 10, 12, 14, 16, 18, 0, 1, 2][BORDER[j]] == j;
  }

  /** "read in bit-length-code lengths" */
  method ReadBorder(z: BitBuffer, nb: nat, ghost p: Plan) returns (ll: seq<nat>)
    requires z.Valid() && p.Ok() && nb == p.nb && Spelled(z.src, z.At(), BorderBits(p.cl, 0, nb))
    modifies z
    ensures z.Valid() && ll == p.cl && z.At() == old(z.At()) + |BorderBits(p.cl, 0, nb)|
  {
    hide *;
    PlanIs(p);
    ghost var p0 := z.At();
    ll := seq(19, _ => 0);
    SmallPowers();
    for j := 0 to nb
      invariant z.Valid() && |ll| == 19 == |p.cl| && Spelled(z.src, z.At(), BorderBits(p.cl, j, nb))
      invariant z.At() + |BorderBits(p.cl, j, nb)| == p0 + |BorderBits(p.cl, 0, nb)|
      invariant BorderRead(ll, p.cl, j)
    {
      BorderFirst(z.src, z.At(), p, j);
      ghost var was := ll;
      var v := z.Take(3);
      ll := ll[BORDER[j] := v];
      BorderMore(was, ll, p.cl, j);
    }
    BorderDone(ll, p);
  }

  /** The i-th length in that order, when j have been read. */
  predicate BorderIn(ll: seq<nat>, cl: CodeLengths, i: nat, j: nat)
    requires |ll| == 19 == |cl| && i < 19
  {
    BorderAt(i);
    ll[BORDER[i]] == if i < j then cl[BORDER[i]] else 0
  }

  predicate BorderRead(ll: seq<nat>, cl: CodeLengths, j: nat)
    requires |ll| == 19 == |cl|
  {
    forall i :: 0 <= i < 19 ==> BorderIn(ll, cl, i, j)
  }

  lemma {:induction false} PlanIs(p: Plan)
    requires p.Ok()
    ensures 4 <= p.nb <= 19 == |p.cl| && BorderRead(seq(19, _ => 0), p.cl, 0)
  {
    hide AllItems, Lengths, BORDER, Usable, Enough;
    var none: seq<nat> := seq(19, _ => 0);
    forall i | 0 <= i < 19 ensures BorderIn(none, p.cl, i, 0) {
      BorderAt(i);
    }
  }

  lemma {:induction false} BorderFirst(src: Source, q: nat, p: Plan, j: nat)
    requires p.Ok() && j < p.nb && Spelled(src, q, BorderBits(p.cl, j, p.nb))
    ensures |BORDER| == 19 && BORDER[j] < 19 && Low(Ahead(src, q, 3)) == p.cl[BORDER[j]]
    ensures Spelled(src, q + 3, BorderBits(p.cl, j + 1, p.nb)) && |BorderBits(p.cl, j, p.nb)| == 3 + |BorderBits(p.cl, j + 1, p.nb)|
  {
    hide AllItems, Lengths, Spelled, Ahead, Low, LowBits, BORDER, Usable, Enough;
    BorderAt(j);
    SmallPowers();
    SpelledSplit(src, q, LowBits(p.cl[BORDER[j]], 3), BorderBits(p.cl, j + 1, p.nb));
    SpelledLow(src, q, p.cl[BORDER[j]], 3);
  }

  lemma {:induction false} BorderMore(was: seq<nat>, ll: seq<nat>, cl: CodeLengths, j: nat)
    requires j < 19 == |was| == |cl| && |BORDER| == 19 && BORDER[j] < 19 && ll == was[BORDER[j] := cl[BORDER[j]]]
    requires BorderRead(was, cl, j)
    ensures BorderRead(ll, cl, j + 1)
  {
    hide BORDER;
    var next := j + 1;
    forall i | 0 <= i < 19 ensures BorderIn(ll, cl, i, next) {
      BorderAt(i);
      assert BorderIn(was, cl, i, j);
      if BORDER[i] == BORDER[j] { BorderOnce(i, j); }
    }
  }

  lemma {:induction false} BorderDone(ll: seq<nat>, p: Plan)
    requires p.Ok() && |ll| == 19 && BorderRead(ll, p.cl, p.nb)
    ensures ll == p.cl && BorderBits(p.cl, p.nb, p.nb) == []
  {
    hide AllItems, Lengths, BORDER, Usable, Enough;
    forall v | 0 <= v < 19 ensures ll[v] == p.cl[v] {
      var j := BorderOf(v);
      assert BorderIn(ll, p.cl, j, p.nb);
    }
  }

  /** inflate_dynamic: accepted exactly when there are not too many codes, huft_build
      takes all three sets and the lengths are not too many either; then the tokens that
      follow the header are carried out. */
  method InflateDynamic(z: BitBuffer, w: Window, ghost p: Plan, ghost ts: seq<Token>) returns (r: nat)
    requires z.Valid() && w.Valid() && p.Ok() && Spelled(z.src, z.At(), p.Bits())
    requires p.Accepted() ==>
      AllCoded(ts, 256, p.ll, p.dd) && Spelled(z.src, z.At() + |p.Bits()|, AllBits(ts, 256, p.ll, p.dd))
    modifies z, w, w.slide
    ensures z.Valid() && w.Valid() && |old(w.history)| >= WSIZE
    ensures r == p.Result() && (r == 0 <==> p.Accepted())
    ensures r == 0 ==> z.At() == old(z.At()) + |p.Bits()| + |AllBits(ts, 256, p.ll, p.dd)| && w.history == AllOnto(ts, old(w.history))
    ensures r != 0 ==> w.history == old(w.history)
  {
    hide *;
    w.ValidIs();
    ghost var p0 := z.At();
    HeaderParts(z.src, p0, p);
    AcceptedIs(p);
    SmallPowers();
    var nl := z.Take(5);
    nl := 257 + nl;
    var nd := z.Take(5);
    nd := 1 + nd;
    var nb := z.Take(4);
    nb := 4 + nb;
    if nl > 286 || nd > 30 { return 1; }
    var cl := ReadBorder(z, nb, p);
    var pool, bl;
    ghost var k;
    r, pool, bl, k := MakeDecoder(cl, 19, [], [], 7);
    if r != 0 { return; }
    LengthsReady(p, k, bl);
    var lens;
    r, lens := ReadLengths(z, pool, bl, nl + nd, k, p.cl, p.items);
    if r != 0 { return; }
    BothLengths(p, lens);
    ghost var kl, kd;
    var tl, td, bd;
    r, tl, bl, kl := MakeDecoder(lens[..nl], 257, CPLENS, CPLEXT, 9);
    if r != 0 { return; }
    r, td, bd, kd := MakeDecoder(lens[nl..], 0, CPDIST, CPDEXT, 6);
    if r != 0 { return; }
    TablesReady(p, ts, kl, kd);
    r := InflateCodes(z, w, tl, td, bl, bd, kl, kd, p.ll, p.dd, ts, 256);
  }

  lemma {:induction false} AcceptedIs(p: Plan)
    ensures p.Result() ==
      if p.nl > 286 || p.nd > 30 then 1 else if !Usable(p.cl) then BuildCode(p.cl)
      else if |Lengths(p.items, 0)| != p.nl + p.nd then 1 else if !Usable(p.ll) then BuildCode(p.ll) else BuildCode(p.dd)
    ensures p.Accepted() <==>
      p.nl <= 286 && p.nd <= 30 && Usable(p.cl) && |Lengths(p.items, 0)| == p.nl + p.nd && Usable(p.ll) && Usable(p.dd)
  {
    hide Usable, Lengths, TooMany;
  }

  /** The parts of the header one after another. */
  lemma {:induction false} HeaderParts(src: Source, q: nat, p: Plan)
    requires p.Ok() && Spelled(src, q, p.Bits())
    ensures Low(Ahead(src, q, 5)) == p.nl - 257 && Low(Ahead(src, q + 5, 5)) == p.nd - 1 && Low(Ahead(src, q + 10, 4)) == p.nb - 4
    ensures 257 <= p.nl <= 288 && 1 <= p.nd <= 32 && 4 <= p.nb <= 19 && |p.cl| == 19 && AllItems(p.items, p.cl)
    ensures Spelled(src, q + 14, BorderBits(p.cl, 0, p.nb))
    ensures Spelled(src, q + 14 + |BorderBits(p.cl, 0, p.nb)|, ItemBits(p.items, p.cl))
    ensures |p.Bits()| == 14 + |BorderBits(p.cl, 0, p.nb)| + |ItemBits(p.items, p.cl)|
  {
    hide Spelled, Ahead, Low, LowBits, BorderBits, ItemBits, AllItems, Lengths, BORDER, Usable, Enough;
    var a, b, c, d, e := LowBits(p.nl - 257, 5), LowBits(p.nd - 1, 5), LowBits(p.nb - 4, 4), BorderBits(p.cl, 0, p.nb), ItemBits(p.items, p.cl);
    SmallPowers();
    SpelledSplit(src, q, a, b + (c + (d + e)));
    SpelledSplit(src, q + 5, b, c + (d + e));
    SpelledSplit(src, q + 10, c, d + e);
    SpelledSplit(src, q + 14, d, e);
    SpelledLow(src, q, p.nl - 257, 5);
    SpelledLow(src, q + 5, p.nd - 1, 5);
    SpelledLow(src, q + 10, p.nb - 4, 4);
  }

  lemma {:induction false} LengthsReady(p: Plan, k: Decoder, bl: nat)
    requires p.Ok() && p.nl <= 286 && p.nd <= 30 && Usable(p.cl)
    requires k.b == p.cl && k.simple == 19 && k.d == [] && k.e == [] && (k.pool == [] <==> NoCodes(p.cl))
    requires k.pool != [] ==> Built(k.s, k.pool, k.metas) && MadeFor(k.s, p.cl, 19, [], []) && bl == k.s.l && (bl >= 7 || bl == k.s.g)
    ensures LengthTable(k, p.cl) && bl == k.s.l && Enough(p.items, p.nl + p.nd)
  {
    hide Built, MadeFor, Usable, BORDER, Lengths;
    SomeCodes(p);
    LongestIsOne(k, 7);
    WideEnough(k);
  }

  lemma {:induction false} SomeCodes(p: Plan)
    requires p.Ok() && p.Reads()
    ensures !NoCodes(p.cl)
  {
    hide BORDER, Item.Bits, Usable;
    assert p.items[0].Coded(p.cl);
  }

  lemma {:induction false} BothLengths(p: Plan, lens: seq<nat>)
    requires p.Ok() && p.nl <= 286 && p.nd <= 30 && Usable(p.cl) && lens == Lengths(p.items, 0) && |lens| == p.nl + p.nd
    ensures |p.ll| == p.nl <= |lens| && |p.dd| == p.nd && lens[..p.nl] == p.ll && lens[p.nl..] == p.dd
  {
    hide BORDER, Lengths, Usable;
  }

  lemma {:induction false} TablesReady(p: Plan, ts: seq<Token>, kl: Decoder, kd: Decoder)
    requires |p.dd| <= 30 && AllCoded(ts, 256, p.ll, p.dd) && kl.b == p.ll && kl.simple == 257 && kl.d == CPLENS && kl.e == CPLEXT
    requires kd.b == p.dd && kd.simple == 0 && kd.d == CPDIST && kd.e == CPDEXT
    requires (kl.pool == [] <==> NoCodes(p.ll)) && (kd.pool == [] <==> NoCodes(p.dd))
    requires kl.pool != [] ==> Built(kl.s, kl.pool, kl.metas) && MadeFor(kl.s, p.ll, 257, CPLENS, CPLEXT) && (kl.s.l >= 9 || kl.s.l == kl.s.g)
    requires kd.pool != [] ==> Built(kd.s, kd.pool, kd.metas) && MadeFor(kd.s, p.dd, 0, CPDIST, CPDEXT) && (kd.s.l >= 6 || kd.s.l == kd.s.g)
    requires kd.pool != [] ==> !(kd.s.c[kd.s.g] > Count(p.dd, kd.s.g) && kd.s.g != 1)
    ensures Fits(kl, kd, p.ll, p.dd) && kl.pool != [] && (kd.Ready() ==> kd.pool != [])
  {
    hide Built, MadeFor, BORDER, Lengths, CPLENS, CPLEXT, CPDIST, CPDEXT, Count;
    LongestIsOne(kl, 16);
    WideEnough(kl);
    if kd.pool != [] {
      ManyEnough(kd);
    }
    EmptyUnready(kd);
  }

  lemma {:induction false} EmptyUnready(k: Decoder)
    ensures k.Ready() ==> k.pool != []
  {
    hide CellOk, TableOk, MadeFor, Fine;
  }

  // --------------------------------------------------------------- fixed blocks

  function Run(v: Byte, n: nat): (s: Text)
    ensures |s| == n && forall i :: 0 <= i < n ==> s[i] == v
  {
    seq(n, _ => v)
  }

  lemma {:induction false} CountRun(b: Text, v: Byte, n: nat, k: int)
    ensures Count(b + Run(v, n), k) == Count(b, k) + (if v == k then n else 0)
  {
    if n == 0 {
      assert b + Run(v, 0) == b;
    } else {
      CountRun(b, v, n - 1, k);
      assert (b + Run(v, n))[..|b| + n - 1] == b + Run(v, n - 1);
    }
  }

  /** The codes of section 3.2.6 of RFC 1951. */
  function FixedLiterals(): (l: CodeLengths)
    ensures |l| == 288 && l[256] == 7
  {
    Run(8, 144) + Run(9, 112) + Run(7, 24) + Run(8, 8)
  }

  function FixedDistances(): (l: CodeLengths)
    ensures |l| == 30 && forall i :: 0 <= i < 30 ==> l[i] == 5
  {
    Run(5, 30)
  }

  lemma {:induction false} FixedCounts(k: int)
    ensures Count(FixedLiterals(), k) == (if k == 7 then 24 else if k == 8 then 152 else if k == 9 then 112 else 0)
    ensures Count(FixedDistances(), k) == if k == 5 then 30 else 0
  {
    hide Run;
    var none: Text := [];
    assert none + Run(8, 144) == Run(8, 144) && none + Run(5, 30) == Run(5, 30);
    CountRun(none, 8, 144, k);
    CountRun(Run(8, 144), 9, 112, k);
    CountRun(Run(8, 144) + Run(9, 112), 7, 24, k);
    CountRun(Run(8, 144) + Run(9, 112) + Run(7, 24), 8, 8, k);
    CountRun(none, 5, 30, k);
  }

  /** The literals' code is full. */
  lemma {:induction false} LiteralsFull()
    ensures Usable(FixedLiterals()) && !NoCodes(FixedLiterals())
  {
    hide FixedLiterals, Count;
    var b := FixedLiterals();
    var c := CountsOf(b);
    forall k | 0 <= k <= 16 ensures c[k] == (if k == 7 then 24 else if k == 8 then 152 else if k == 9 then 112 else 0) {
      FixedCounts(k);
      assert c[k] == Count(b, k);
    }
    NoneShort(c, 6);
    assert UpTo(c, 7) == 24 && UpTo(c, 8) == 200 && UpTo(c, 9) == 512;
    SmallPowers();
    LiteralsAtMost();
    assert Complete(c, 9);
  }

  lemma {:induction false} LiteralsAtMost()
    ensures forall i :: 0 <= i < |FixedLiterals()| ==> FixedLiterals()[i] <= 9
  {
  }

  lemma {:induction false} NoneShort(c: Counts, g: nat)
    requires g <= BMAX && forall k :: 1 <= k <= g ==> c[k] == 0
    ensures UpTo(c, g) == 0
  {
    if g != 0 { NoneShort(c, g - 1); }
  }

  /** The distances' is not, but has not too many codes. */
  lemma {:induction false} DistancesFew()
    ensures BuildCode(FixedDistances()) <= 1 && !TooMany(FixedDistances()) && !NoCodes(FixedDistances())
  {
    hide FixedDistances, Count, Usable;
    var b := FixedDistances();
    var c := CountsOf(b);
    assert b[0] == 5;
    forall k | 0 <= k <= 16 ensures c[k] == (if k == 5 then 30 else 0) {
      FixedCounts(k);
      assert c[k] == Count(b, k);
    }
    forall g: nat | g <= BMAX ensures !Oversubscribed(c, g) {
      SmallPowers();
      NoneShort(c, 4);
      assert UpTo(c, 5) == 30;
      if g < 5 { NoneShort(c, g); } else { NoLonger(b, 5, g); }
    }
  }

  lemma {:induction false} FirstFixed()
    ensures FirstCode(FixedLiterals(), 7) == 0 && FirstCode(FixedLiterals(), 8) == 0x30 && FirstCode(FixedLiterals(), 9) == 0x190
    ensures FirstCode(FixedDistances(), 5) == 0
  {
    hide FixedLiterals, FixedDistances, Count;
    forall k | 0 <= k <= 8 ensures
      && Count(FixedLiterals(), k) == (if k == 7 then 24 else if k == 8 then 152 else 0)
      && Count(FixedDistances(), k) == if k == 5 then 30 else 0
    {
      FixedCounts(k);
    }
    assert FirstCode(FixedLiterals(), 3) == 0 && FirstCode(FixedDistances(), 3) == 0;
    assert FirstCode(FixedLiterals(), 6) == 0;
  }

  /** Symbols in order get codes in order: the table of section 3.2.6 of RFC 1951. */
  lemma {:induction false} FixedCodes(v: nat)
    ensures v < 144 ==> Codeword(FixedLiterals(), v) == BitsOf(0x30 + v, 8)
    ensures 144 <= v < 256 ==> Codeword(FixedLiterals(), v) == BitsOf(0x190 + (v - 144), 9)
    ensures 256 <= v < 280 ==> Codeword(FixedLiterals(), v) == BitsOf(v - 256, 7)
    ensures 280 <= v < 288 ==> Codeword(FixedLiterals(), v) == BitsOf(0xc0 + (v - 280), 8)
    ensures v < 30 ==> Codeword(FixedDistances(), v) == BitsOf(v, 5)
  {
    hide Count, BitsOf, FirstCode;
    FirstFixed();
    if v < 288 { FixedBefore(v); }
    if v < 30 {
      CountRun([], 5, v, 5);
      NoCount();
      assert FixedDistances()[..v] == [] + Run(5, v);
    }
  }

  /** How many symbols before v have codes of the same length. */
  lemma {:induction false} FixedBefore(v: nat)
    requires v < 288
    ensures var b := FixedLiterals();
      && b[v] == (if v < 144 then 8 else if v < 256 then 9 else if v < 280 then 7 else 8)
      && Count(b[..v], b[v]) == if v < 144 then v else if v < 256 then v - 144 else if v < 280 then v - 256 else 144 + (v - 280)
  {
    hide Count;
    var b := FixedLiterals();
    var k := b[v];
    NoCount();
    CountRun([], 8, 144, k);
    CountRun(Run(8, 144), 9, 112, k);
    CountRun(Run(8, 144) + Run(9, 112), 7, 24, k);
    assert [] + Run(8, 144) == Run(8, 144);
    if v < 144 {
      CountRun([], 8, v, k);
      assert b[..v] == [] + Run(8, v);
    } else if v < 256 {
      CountRun(Run(8, 144), 9, v - 144, k);
      assert b[..v] == Run(8, 144) + Run(9, v - 144);
    } else if v < 280 {
      CountRun(Run(8, 144) + Run(9, 112), 7, v - 256, k);
      assert b[..v] == Run(8, 144) + Run(9, 112) + Run(7, v - 256);
    } else {
      CountRun(Run(8, 144) + Run(9, 112) + Run(7, 24), 8, v - 280, k);
      assert b[..v] == Run(8, 144) + Run(9, 112) + Run(7, 24) + Run(8, v - 280);
    }
  }

  /** inflate_fixed: the tokens are carried out, and there is an error exactly at one of
      the two symbols that only make the code complete. */
  method InflateFixed(z: BitBuffer, w: Window, ghost ts: seq<Token>, ghost end: nat) returns (r: nat)
    requires z.Valid() && w.Valid() && AllCoded(ts, end, FixedLiterals(), FixedDistances())
    requires Spelled(z.src, z.At(), AllBits(ts, end, FixedLiterals(), FixedDistances()))
    modifies z, w, w.slide
    ensures z.Valid() && w.Valid() && |old(w.history)| >= WSIZE && r == (if end == 256 then 0 else 1)
    ensures r == 0 ==> z.At() == old(z.At()) + |AllBits(ts, end, FixedLiterals(), FixedDistances())|
    ensures w.history == AllOnto(ts, old(w.history))
  {
    hide *;
    w.ValidIs();
    var l := Append([], 8, 144);
    l := Append(l, 9, 112);
    l := Append(l, 7, 24);
    l := Append(l, 8, 8);
    FixedIs(l);
    LiteralsFull();
    DistancesFew();
    ghost var kl, kd;
    var tl, td, bl, bd;
    r, tl, bl, kl := MakeDecoder(l, 257, CPLENS, CPLEXT, 7);
    if r != 0 { return; }
    l := Append([], 5, 30);
    DistancesAre(l);
    r, td, bd, kd := MakeDecoder(l, 0, CPDIST, CPDEXT, 5);
    if r > 1 { return; }
    FixedReady(kl, kd);
    r := InflateCodes(z, w, tl, td, bl, bd, kl, kd, FixedLiterals(), FixedDistances(), ts, end);
  }

  lemma {:induction false} FixedIs(l: seq<nat>)
    requires l == [] + Same(8, 144) + Same(9, 112) + Same(7, 24) + Same(8, 8)
    ensures l == FixedLiterals()
  {
  }

  lemma {:induction false} DistancesAre(l: seq<nat>)
    requires l == [] + Same(5, 30)
    ensures l == FixedDistances()
  {
  }

  lemma {:induction false} FixedReady(kl: Decoder, kd: Decoder)
    requires kl.b == FixedLiterals() && kl.simple == 257 && kl.d == CPLENS && kl.e == CPLEXT && kl.pool != []
    requires kd.b == FixedDistances() && kd.simple == 0 && kd.d == CPDIST && kd.e == CPDEXT && kd.pool != []
    requires Built(kl.s, kl.pool, kl.metas) && MadeFor(kl.s, kl.b, 257, CPLENS, CPLEXT) && (kl.s.l >= 7 || kl.s.l == kl.s.g)
    requires Built(kd.s, kd.pool, kd.metas) && MadeFor(kd.s, kd.b, 0, CPDIST, CPDEXT) && (kd.s.l >= 5 || kd.s.l == kd.s.g)
    ensures Fits(kl, kd, FixedLiterals(), FixedDistances())
  {
    hide Built, MadeFor, CPLENS, CPLEXT, CPDIST, CPDEXT, FixedLiterals, FixedDistances;
    LiteralsAtMost();
    LongestIsOne(kl, 9);
    LongestIsOne(kd, 5);
    WideEnough(kl);
    WideEnough(kd);
  }

  // ------------------------------------------------------------------ the stream

  /** A block: bytes as they are, or tokens in the fixed codes or codes of its own; or one
      that is wrong, with a count that its complement denies, at a symbol that stands for
      nothing, with a header that is refused, or of the fourth kind. */
  datatype Chunk =
    | Stored(data: seq<Byte>)
    | Miscounted(n: nat, c: nat)
    | Fixed(ts: seq<Token>, end: nat)
    | Dynamic(p: Plan, ts: seq<Token>)
    | Unknown
  {
    ghost predicate Ok()
      ensures Ok() ==> forall i :: 0 <= i < |Tokens()| ==> Tokens()[i].Ok()
    {
      match this
      case Stored(data) => |data| < 0x1_0000
      case Miscounted(n, c) => n < 0x1_0000 && c < 0x1_0000 && c != 0xffff - n
      case Fixed(ts, end) => CodedOk'(ts, end, FixedLiterals(), FixedDistances()); AllCoded(ts, end, FixedLiterals(), FixedDistances())
      case Dynamic(p, ts) =>
        CodedOk'(ts, 256, p.ll, p.dd);
        p.Ok() && if p.Accepted() then AllCoded(ts, 256, p.ll, p.dd) else ts == []
      case Unknown => true
    }

    function Tokens(): seq<Token> {
      if Fixed? || Dynamic? then ts else []
    }

    function Kind(): nat {
      match this
      case Stored(_) => 0
      case Miscounted(_, _) => 0
      case Fixed(_, _) => 1
      case Dynamic(_, _) => 2
      case Unknown => 3
    }

    ghost predicate Wrong() {
      Miscounted? || (Fixed? && end != 256) || (Dynamic? && !p.Accepted()) || Unknown?
    }

    /** What inflate_block returns for it. */
    ghost function Code(): nat {
      match this
      case Stored(_) => 0
      case Miscounted(_, _) => 1
      case Fixed(_, end) => if end == 256 then 0 else 1
      case Dynamic(p, _) => p.Result()
      case Unknown => 2
    }

    /** Where it ends if its contents begin at bit q, unless it is wrong. */
    ghost function End(q: nat): nat
      requires Ok()
    {
      match this
      case Stored(data) => Aligned(q) + 32 + 8 * |data|
      case Fixed(ts, end) => q + |AllBits(ts, end, FixedLiterals(), FixedDistances())|
      case Dynamic(p, ts) => if p.Accepted() then q + |p.Bits()| + |AllBits(ts, 256, p.ll, p.dd)| else q
      case _ => q
    }

    /** Its contents lie at bit q of the input. */
    ghost predicate Lies(src: Source, q: nat)
      requires Ok()
    {
      match this
      case Stored(data) =>
        var a := Aligned(q);
        && Spelled(src, a, LowBits(|data|, 16) + LowBits(0xffff - |data|, 16)) && BytesFrom(src, a / 8 + 4, |data|) == data
      case Miscounted(n, c) => Spelled(src, Aligned(q), LowBits(n, 16) + LowBits(c, 16))
      case Fixed(ts, end) => Spelled(src, q, AllBits(ts, end, FixedLiterals(), FixedDistances()))
      case Dynamic(p, ts) =>
        && Spelled(src, q, p.Bits())
        && (p.Accepted() ==> Spelled(src, q + |p.Bits()|, AllBits(ts, 256, p.ll, p.dd)))
      case Unknown => true
    }

    /** With its three bits before it, of which the first marks the last block. */
    ghost predicate Stands(src: Source, q: nat, last: bool)
      requires Ok()
    {
      && (Wrong() || Spelled(src, q, LowBits(if last then 1 else 0, 1)))
      && Spelled(src, q + 1, LowBits(Kind(), 2)) && Lies(src, q + 3)
    }

    /** The history with what the block adds. */
    ghost function Onto(h: seq<Byte>): seq<Byte>
      requires Ok() && |h| >= WSIZE
    {
      if Stored? then h + data else AllOnto(Tokens(), h)
    }
  }

  lemma {:induction false} CodedOk'(ts: seq<Token>, end: nat, ll: CodeLengths, dd: CodeLengths)
    ensures AllCoded(ts, end, ll, dd) ==> forall i :: 0 <= i < |ts| ==> ts[i].Ok()
  {
    hide Token.Ok;
  }

  /** Blocks from bit q on, the last one marked, and that one or none of them wrong. */
  ghost predicate AllLie(src: Source, q: nat, blocks: seq<Chunk>)
    decreases |blocks|
  {
    && blocks != [] && blocks[0].Ok() && blocks[0].Stands(src, q, |blocks| == 1)
    && (|blocks| > 1 ==> !blocks[0].Wrong() && AllLie(src, blocks[0].End(q + 3), blocks[1..]))
  }

  ghost function EndOf(src: Source, q: nat, blocks: seq<Chunk>): nat
    requires AllLie(src, q, blocks)
    decreases |blocks|
  {
    if |blocks| == 1 then blocks[0].End(q + 3) else EndOf(src, blocks[0].End(q + 3), blocks[1..])
  }

  /** The history with what they add. */
  ghost function BlocksOnto(blocks: seq<Chunk>, h: seq<Byte>): seq<Byte>
    requires (forall i :: 0 <= i < |blocks| ==> blocks[i].Ok()) && |h| >= WSIZE
    decreases |blocks|
  {
    if blocks == [] then h else ChunkGrows(blocks[0], h); BlocksOnto(blocks[1..], blocks[0].Onto(h))
  }

  lemma {:induction false} ChunkGrows(b: Chunk, h: seq<Byte>)
    requires b.Ok() && |h| >= WSIZE
    ensures h <= b.Onto(h)
  {
    hide Chunk.Ok;
    if !b.Stored? { AllGrow(b.Tokens(), h); }
  }

  lemma {:induction false} AllGrow(ts: seq<Token>, h: seq<Byte>)
    requires (forall i :: 0 <= i < |ts| ==> ts[i].Ok()) && |h| >= WSIZE
    ensures h <= AllOnto(ts, h)
    decreases |ts|
  {
    hide Copied, Token.Ok;
    if ts != [] {
      GrowsBy(ts[0], h);
      if ts[0].Copy? {
        DistanceRange(ts[0]);
        CopiedMeaning(h, ts[0].Distance(), ts[0].Length());
      }
      AllGrow(ts[1..], ts[0].Onto(h));
    }
  }

  lemma {:induction false} AllLieOk(src: Source, q: nat, blocks: seq<Chunk>)
    requires AllLie(src, q, blocks)
    ensures blocks != [] && forall i :: 0 <= i < |blocks| ==> blocks[i].Ok()
    decreases |blocks|
  {
    hide Chunk.Ok, Chunk.Stands, Chunk.End, Chunk.Wrong, Spelled, LowBits;
    if |blocks| > 1 {
      AllLieOk(src, blocks[0].End(q + 3), blocks[1..]);
      forall i | 0 <= i < |blocks| ensures blocks[i].Ok() {
        if i > 0 { assert blocks[i] == blocks[1..][i - 1]; }
      }
    }
  }

  /** inflate_block: an error exactly for a wrong block. */
  method InflateBlock(z: BitBuffer, w: Window, ghost b: Chunk, ghost last: bool) returns (r: nat, e: nat)
    requires z.Valid() && w.Valid() && b.Ok() && b.Stands(z.src, z.At(), last)
    modifies z, w, w.slide
    ensures z.Valid() && w.Valid() && |old(w.history)| >= WSIZE && w.history == b.Onto(old(w.history))
    ensures r == b.Code() && (r == 0 <==> !b.Wrong())
    ensures r == 0 ==> e == (if last then 1 else 0) && z.At() == b.End(old(z.At()) + 3)
  {
    hide *;
    w.ValidIs();
    ghost var q, h := z.At(), w.history;
    KindIs(z.src, q, b, last);
    OntoIs(b, h);
    CodeIs(b);
    e := z.Take(1);
    var t := z.Take(2);
    if t == 2 {
      r := InflateDynamic(z, w, b.p, b.ts);
      return;
    }
    if t == 0 {
      r := InflateStored(z, w);
      return;
    }
    if t == 1 {
      r := InflateFixed(z, w, b.ts, b.end);
      return;
    }
    r := 2;
  }

  /** What a block that stands at bit q is. */
  lemma {:induction false} KindIs(src: Source, q: nat, b: Chunk, last: bool)
    requires b.Ok() && b.Stands(src, q, last)
    ensures !b.Wrong() ==> Low(Ahead(src, q, 1)) == if last then 1 else 0
    ensures Low(Ahead(src, q + 1, 2)) == if b.Stored? || b.Miscounted? then 0 else if b.Fixed? then 1 else if b.Dynamic? then 2 else 3
    ensures b.Wrong() <==> b.Miscounted? || (b.Fixed? && b.end != 256) || (b.Dynamic? && !b.p.Accepted()) || b.Unknown?
    ensures b.Stored? ==>
      var a := Aligned(q + 3);
      && Low(Ahead(src, a, 16)) == |b.data| && Low(Ahead(src, a + 16, 16)) == 0xffff - |b.data|
      && BytesFrom(src, a / 8 + 4, |b.data|) == b.data && b.End(q + 3) == a + 32 + 8 * |b.data|
    ensures b.Miscounted? ==>
      var a := Aligned(q + 3);
      Low(Ahead(src, a + 16, 16)) != 0xffff - Low(Ahead(src, a, 16))
    ensures b.Fixed? ==>
      && AllCoded(b.ts, b.end, FixedLiterals(), FixedDistances()) && Spelled(src, q + 3, AllBits(b.ts, b.end, FixedLiterals(), FixedDistances()))
      && b.End(q + 3) == q + 3 + |AllBits(b.ts, b.end, FixedLiterals(), FixedDistances())|
    ensures b.Dynamic? ==> b.p.Ok() && Spelled(src, q + 3, b.p.Bits())
    ensures b.Dynamic? && b.p.Accepted() ==>
      && AllCoded(b.ts, 256, b.p.ll, b.p.dd) && Spelled(src, q + 3 + |b.p.Bits()|, AllBits(b.ts, 256, b.p.ll, b.p.dd))
      && b.End(q + 3) == q + 3 + |b.p.Bits()| + |AllBits(b.ts, 256, b.p.ll, b.p.dd)|
  {
    hide Plan.Ok, Plan.Accepted, AllCoded, AllBits, Ahead, Low, FixedLiterals, FixedDistances, BytesFrom, AllOnto, Spelled, LowBits;
    SmallPowers();
    Sixteen();
    if !b.Wrong() { SpelledLow(src, q, if last then 1 else 0, 1); }
    SpelledLow(src, q + 1, b.Kind(), 2);
    if b.Stored? || b.Miscounted? {
      var a := Aligned(q + 3);
      var n, c := if b.Stored? then |b.data| else b.n, if b.Stored? then 0xffff - |b.data| else b.c;
      SpelledSplit(src, a, LowBits(n, 16), LowBits(c, 16));
      SpelledLow(src, a, n, 16);
      SpelledLow(src, a + 16, c, 16);
    }
  }

  lemma {:induction false} CodeIs(b: Chunk)
    ensures b.Stored? ==> b.Code() == 0
    ensures b.Miscounted? ==> b.Code() == 1
    ensures b.Fixed? ==> b.Code() == if b.end == 256 then 0 else 1
    ensures b.Dynamic? ==> b.Code() == b.p.Result()
    ensures b.Unknown? ==> b.Code() == 2
  {
    hide Plan.Result;
  }

  lemma {:induction false} OntoIs(b: Chunk, h: seq<Byte>)
    requires b.Ok() && |h| >= WSIZE
    ensures b.Stored? ==> b.Onto(h) == h + b.data
    ensures b.Fixed? || b.Dynamic? ==> (forall i :: 0 <= i < |b.ts| ==> b.ts[i].Ok()) && b.Onto(h) == AllOnto(b.ts, h)
    ensures b.Miscounted? || b.Unknown? || (b.Dynamic? && !b.p.Accepted()) ==> b.Onto(h) == h
  {
    hide Plan.Ok, Plan.Accepted, AllCoded, FixedLiterals, FixedDistances, Token.Ok;
    var none: seq<Token> := [];
    if b.Fixed? || b.Dynamic? { assert b.Tokens() == b.ts; }
    assert AllOnto(none, h) == h;
  }

  /** inflate: whatever the window holds at first, the blocks up to the last one are
      carried out, all of the output is written, and the input is left at the first byte
      of which no bit was used. An error is returned exactly if the last one is wrong, and
      what has been written by then is right. */
  method Inflate(src: Source, slide: array<Byte>, ghost blocks: seq<Chunk>) returns (r: nat, out: seq<Byte>, inptr: nat)
    requires slide.Length == WSIZE && AllLie(src, 0, blocks)
    modifies slide
    ensures blocks != [] && r == blocks[|blocks| - 1].Code() && (r == 0 <==> !blocks[|blocks| - 1].Wrong())
    ensures (forall i :: 0 <= i < |blocks| ==> blocks[i].Ok()) && |old(slide[..])| >= WSIZE
    ensures old(slide[..]) + out <= BlocksOnto(blocks, old(slide[..]))
    ensures r == 0 ==> old(slide[..]) + out == BlocksOnto(blocks, old(slide[..]))
    ensures r == 0 ==> 8 * inptr - 8 < EndOf(src, 0, blocks) <= 8 * inptr
  {
    hide *;
    out, inptr := [], 0;
    var z := new BitBuffer(src);
    var w := new Window(slide);
    ghost var h0, left := slide[..], blocks;
    var e: nat := 0;
    WindowSize(h0, slide.Length);
    AllLieOk(src, 0, blocks);
    GrowsNone(h0);
    while true
      invariant z.Valid() && w.Valid() && z.src == src && w.slide == slide && fresh(z) && fresh(w)
      invariant AllLie(src, z.At(), left) && (forall i :: 0 <= i < |left| ==> left[i].Ok()) && |w.history| >= WSIZE
      invariant left != [] && left[|left| - 1] == blocks[|blocks| - 1]
      invariant BlocksOnto(left, w.history) == BlocksOnto(blocks, h0) && h0 <= w.history
      invariant EndOf(src, z.At(), left) == EndOf(src, 0, blocks)
      decreases |left|
    {
      FirstBlock(src, z.At(), left, w.history);
      r, e := InflateBlock(z, w, left[0], |left| == 1);
      if r != 0 {
        out := w.out;
        w.ValidIs();
        SomeOut(out, w.history, w.wp, h0);
        return;
      }
      if e != 0 { break; }
      left := left[1..];
    }
    var bk := z.bk;
    inptr := z.inptr;
    z.Boundary();
    z.AtIs();
    while bk >= 8
      invariant 8 * inptr - bk == z.At() && 0 <= bk <= 8 * inptr
    {
      bk := bk - 8;
      inptr := inptr - 1;
    }
    w.FlushAll();
    out := w.out;
    AllOut(out, w.history, h0);
  }

  lemma {:induction false} WindowSize(h: seq<Byte>, n: nat)
    requires |h| == n
    ensures n == WSIZE ==> |h| >= WSIZE
  {
  }

  lemma {:induction false} GrowsNone(h: seq<Byte>)
    ensures h <= h
  {
  }

  /** What carrying out the first block does. */
  lemma {:induction false} FirstBlock(src: Source, q: nat, blocks: seq<Chunk>, h: seq<Byte>)
    requires AllLie(src, q, blocks) && (forall i :: 0 <= i < |blocks| ==> blocks[i].Ok()) && |h| >= WSIZE
    ensures blocks != [] && blocks[0].Ok() && blocks[0].Stands(src, q, |blocks| == 1) && h <= blocks[0].Onto(h)
    ensures |blocks| == 1 ==> BlocksOnto(blocks, h) == blocks[0].Onto(h) && blocks[0] == blocks[|blocks| - 1]
    ensures |blocks| == 1 ==> EndOf(src, q, blocks) == blocks[0].End(q + 3)
    ensures |blocks| > 1 ==>
      && !blocks[0].Wrong() && AllLie(src, blocks[0].End(q + 3), blocks[1..]) && (forall i :: 0 <= i < |blocks[1..]| ==> blocks[1..][i].Ok())
      && BlocksOnto(blocks, h) == BlocksOnto(blocks[1..], blocks[0].Onto(h))
      && EndOf(src, q, blocks) == EndOf(src, blocks[0].End(q + 3), blocks[1..])
  {
    hide Chunk.Ok, Chunk.Stands, Chunk.End, Chunk.Onto, Chunk.Wrong, Spelled, LowBits;
    ChunkGrows(blocks[0], h);
    if |blocks| == 1 {
      assert blocks[1..] == [];
      assert BlocksOnto([], blocks[0].Onto(h)) == blocks[0].Onto(h);
    }
  }

  lemma {:induction false} AllOut(out: seq<Byte>, h: seq<Byte>, h0: seq<Byte>)
    requires Flushed(out, h, 0) && h0 <= h && |h0| == WSIZE
    ensures h0 + out == h
  {
  }

  lemma {:induction false} SomeOut(out: seq<Byte>, h: seq<Byte>, w: nat, h0: seq<Byte>)
    requires Flushed(out, h, w) && h0 <= h && |h0| == WSIZE
    ensures h0 + out <= h
  {
  }
}
