/** The bits of a block as the format lays them out, for any tables and selectors: the
    machine takes exactly them, and then has the block that its symbols stand for. */
module BlockBits {
  import opened Bits
  import opened BwtSpec
  import opened BitString
  import opened BitStream
  import opened RunLength
  import opened Huffman
  import opened MoveToFront
  import opened Symbols
  import opened CodeTables
  import opened Parser
  import opened Suspension
  import opened SymbolLoop

  // ------------------------------------------------------------------ numbers

  /** The low n bytes of v, highest first. */
  function BytesOf(v: nat, n: nat): (b: Text)
    ensures |b| == n
  {
    if n == 0 then [] else BytesOf(v / 0x100, n - 1) + [v % 0x100]
  }

  function NumberOf(b: Text): nat {
    if b == [] then 0 else NumberOf(b[..|b| - 1]) * 0x100 + b[|b| - 1]
  }

  function Pow256(n: nat): (p: nat)
    ensures p > 0
  {
    if n == 0 then 1 else 0x100 * Pow256(n - 1)
  }

  lemma {:induction false} NumberOfBytes(v: nat, n: nat)
    requires v < Pow256(n)
    ensures NumberOf(BytesOf(v, n)) == v
  {
    if n != 0 {
      NumberOfBytes(v / 0x100, n - 1);
      assert BytesOf(v, n)[..n - 1] == BytesOf(v / 0x100, n - 1);
    }
  }

  // ------------------------------------------------------- whole-byte fields

  /** The locals that are saved are as they were. */
  predicate SavedAlike(s: State, s': State) {
    Save(s'.m) == Save(s.m)
  }

  lemma {:induction false} ByteTaken(s: State, c: Byte)
    requires s.Valid() && !s.at.Stopped() && s.Need() == 8
    ensures Takes(s, BitsOf(c, 8), s.After(c)) && s.After(c).Valid()
  {
    hide State.Valid, State.After, State.Need, Takes;
    Pow2Values();
    TakesNumber(s, c, 8);
    TakesAt(s, BitsOf(c, 8), s.After(c), []);
  }

  lemma {:induction false} FirstByte(b: Text)
    requires b != []
    ensures BitsOfText(b) == BitsOf(b[0], 8) + BitsOfText(b[1..])
  {
  }

  lemma {:induction false} SavedTwice(s: State, s1: State, s2: State)
    requires SavedAlike(s, s1) && SavedAlike(s1, s2)
    ensures SavedAlike(s, s2)
  {
  }

  lemma {:induction false} NoMore(w: State, b: Text)
    requires w.Valid() && b == []
    ensures Takes(w, BitsOfText(b), w)
  {
    hide State.Valid, Takes;
    TakesNothing(w);
  }

  /** What is left of the six bytes that announce a block. */
  function HeaderFrom(n: nat): (b: Text)
    requires 1 <= n <= 7
    ensures |b| == 7 - n && (n < 7 ==> b[0] == BLOCK_HEADER[n - 1])
  {
    [0x31, 0x41, 0x59, 0x26, 0x53, 0x59][n - 1..]
  }

  lemma {:induction false} HeaderTail(n: nat)
    requires 1 <= n <= 6
    ensures HeaderFrom(n)[1..] == HeaderFrom(n + 1)
  {
  }

  lemma {:induction false} HeaderTaken(s: State, n: nat) returns (s': State)
    requires s.Valid() && 1 <= n <= 6 && s.at == BlkHdr(n)
    ensures Takes(s, BitsOfText(HeaderFrom(n)), s') && s'.Valid()
    ensures s'.at == BlockCrc(1) && s'.f == s.f.(storedBlockCRC := 0) && SavedAlike(s, s')
    decreases 6 - n
  {
    hide *;
    var c := HeaderFrom(n)[0];
    HeaderStep(s, n, c);
    ByteTaken(s, c);
    FirstByte(HeaderFrom(n));
    HeaderTail(n);
    var w := s.After(c);
    if n < 6 {
      s' := HeaderTaken(w, n + 1);
      SavedTwice(s, w, s');
    } else {
      s' := w;
      NoMore(w, HeaderFrom(n + 1));
    }
    TakesBoth(s, BitsOf(c, 8), w, BitsOfText(HeaderFrom(n + 1)), s');
  }

  lemma {:induction false} HeaderStep(s: State, n: nat, c: Byte)
    requires s.Valid() && 1 <= n <= 6 && s.at == BlkHdr(n) && c == BLOCK_HEADER[n - 1]
    ensures !s.at.Stopped() && s.Need() == 8
    ensures var w := s.After(c);
      && w.at == (if n < 6 then BlkHdr(n + 1) else BlockCrc(1)) && SavedAlike(s, w)
      && w.f == (if n < 6 then s.f else s.f.(storedBlockCRC := 0))
  {
    hide State.CheckCode, State.AfterCode, State.AfterCoding2, State.AfterSelector3, State.AfterMapping1, State.AfterMapping2,
         State.InCode, State.RowSoFar;
  }

  /** A number given byte by byte, after what of it is already in v. */
  function Onto(v: nat, b: Text): nat
    decreases |b|
  {
    if b == [] then v else Onto(v * 0x100 + b[0], b[1..])
  }

  lemma {:induction false} OntoNumber(v: nat, b: Text)
    ensures Onto(v, b) == v * Pow256(|b|) + NumberOf(b)
    decreases |b|
  {
    if b == [] {
      assert v * 1 == v;
    } else {
      OntoNumber(v * 0x100 + b[0], b[1..]);
      NumberFront(b);
      Shifted(v, b[0], Pow256(|b| - 1));
    }
  }

  lemma {:induction false} Shifted(v: nat, c: nat, p: nat)
    ensures (v * 0x100 + c) * p == v * (0x100 * p) + c * p
  {
  }

  lemma {:induction false} NumberFront(b: Text)
    requires b != []
    ensures NumberOf(b) == b[0] * Pow256(|b| - 1) + NumberOf(b[1..])
  {
    if |b| == 1 {
      assert b[..0] == [] && b[1..] == [];
    } else {
      var c, x := b[..|b| - 1], b[|b| - 1];
      NumberFront(c);
      assert c[1..] == b[1..][..|b| - 2] && b[1..][|b| - 2] == x;
      assert (b[0] * Pow256(|b| - 2)) * 0x100 == b[0] * (0x100 * Pow256(|b| - 2));
    }
  }

  lemma {:induction false} CrcTaken(s: State, n: nat, b: Text) returns (s': State)
    requires s.Valid() && 1 <= n <= 4 && s.at == BlockCrc(n) && |b| == 5 - n && s.f.storedBlockCRC >= 0
    ensures Takes(s, BitsOfText(b), s') && s'.Valid()
    ensures s'.at == RandBit && s'.f == s.f.(storedBlockCRC := Onto(s.f.storedBlockCRC, b)) && SavedAlike(s, s')
    decreases |b|
  {
    hide *;
    var c := b[0];
    CrcStep(s, n, c);
    ByteTaken(s, c);
    FirstByte(b);
    OntoStep(s.f.storedBlockCRC, b);
    var w := s.After(c);
    if n < 4 {
      s' := CrcTaken(w, n + 1, b[1..]);
      SavedTwice(s, w, s');
    } else {
      s' := w;
      OntoNothing(w.f.storedBlockCRC, b[1..]);
      NoMore(w, b[1..]);
    }
    TakesBoth(s, BitsOf(c, 8), w, BitsOfText(b[1..]), s');
  }

  lemma {:induction false} OntoStep(v: nat, b: Text)
    requires b != []
    ensures Onto(v, b) == Onto(v * 0x100 + b[0], b[1..]) && v * 0x100 + b[0] >= 0
  {
  }

  lemma {:induction false} OntoNothing(v: nat, b: Text)
    requires b == []
    ensures Onto(v, b) == v
  {
  }

  lemma {:induction false} CrcStep(s: State, n: nat, c: Byte)
    requires s.Valid() && 1 <= n <= 4 && s.at == BlockCrc(n)
    ensures !s.at.Stopped() && s.Need() == 8
    ensures var w := s.After(c);
      && w.at == (if n < 4 then BlockCrc(n + 1) else RandBit) && SavedAlike(s, w)
      && w.f == s.f.(storedBlockCRC := s.f.storedBlockCRC * 0x100 + c)
  {
    hide State.CheckCode, State.AfterCode, State.AfterCoding2, State.AfterSelector3, State.AfterMapping1, State.AfterMapping2,
         State.InCode, State.RowSoFar;
  }

  lemma {:induction false} RandTaken(s: State, r: bool) returns (s': State)
    requires s.Valid() && s.at == RandBit
    ensures Takes(s, [if r then 1 else 0], s') && s'.Valid()
    ensures s'.at == OrigPtr(1) && s'.f == s.f.(randomised := r, origPtr := 0) && SavedAlike(s, s')
  {
    hide *;
    var b: Bit := if r then 1 else 0;
    RandStep(s, r, b);
    TakesOne(s, [b]);
    ValueOfBit(b);
    s' := s.After(b);
    TakesAt(s, [b], s', []);
  }

  lemma {:induction false} RandStep(s: State, r: bool, b: Bit)
    requires s.Valid() && s.at == RandBit && b == if r then 1 else 0
    ensures !s.at.Stopped() && s.Need() == 1
    ensures var w := s.After(b); w.at == OrigPtr(1) && w.f == s.f.(randomised := r, origPtr := 0) && SavedAlike(s, w)
  {
    hide State.CheckCode, State.AfterCode, State.AfterCoding2, State.AfterSelector3, State.AfterMapping1, State.AfterMapping2,
         State.InCode, State.RowSoFar;
  }

  /** The start row, which must not be far beyond the largest block. */
  lemma {:induction false} OrigTaken(s: State, n: nat, b: Text) returns (s': State)
    requires s.Valid() && 1 <= n <= 3 && s.at == OrigPtr(n) && |b| == 4 - n && s.f.origPtr >= 0
    requires Onto(s.f.origPtr, b) <= 10 + 100000 * s.f.blockSize100k
    ensures Takes(s, BitsOfText(b), s') && s'.Valid()
    ensures s'.at == Mapping1 && s'.m.i == 0 && s'.f == s.f.(origPtr := Onto(s.f.origPtr, b))
    decreases |b|
  {
    hide *;
    var c := b[0];
    OrigStep(s, n, c);
    ByteTaken(s, c);
    FirstByte(b);
    OntoStep(s.f.origPtr, b);
    var w := s.After(c);
    if n < 3 {
      s' := OrigTaken(w, n + 1, b[1..]);
    } else {
      s' := w;
      OntoNothing(w.f.origPtr, b[1..]);
      NoMore(w, b[1..]);
    }
    TakesBoth(s, BitsOf(c, 8), w, BitsOfText(b[1..]), s');
  }

  /** One that is, is refused. */
  lemma {:induction false} OrigRefused(s: State, n: nat, b: Text) returns (s': State)
    requires s.Valid() && 1 <= n <= 3 && s.at == OrigPtr(n) && |b| == 4 - n && s.f.origPtr >= 0
    requires Onto(s.f.origPtr, b) > 10 + 100000 * s.f.blockSize100k
    ensures Comes(s, BitsOfText(b), s') && s'.at == BadData
    decreases |b|
  {
    hide *;
    var c := b[0];
    OrigStep(s, n, c);
    ByteTaken(s, c);
    FirstByte(b);
    OntoStep(s.f.origPtr, b);
    var w := s.After(c);
    if n < 3 {
      s' := OrigRefused(w, n + 1, b[1..]);
    } else {
      s' := w;
      OntoNothing(w.f.origPtr, b[1..]);
      BadStops(w);
      ComesNow(w, BitsOfText(b[1..]));
    }
    ComesAfter(s, BitsOf(c, 8), w, BitsOfText(b[1..]), s');
  }

  lemma {:induction false} BadStops(s: State)
    requires s.at == BadData
    ensures s.at.Stopped() && s.at.BadData?
  {
  }

  lemma {:induction false} OrigStep(s: State, n: nat, c: Byte)
    requires s.Valid() && 1 <= n <= 3 && s.at == OrigPtr(n) && s.f.origPtr >= 0
    ensures !s.at.Stopped() && s.Need() == 8
    ensures var w, v := s.After(c), s.f.origPtr * 0x100 + c;
      && w.f == s.f.(origPtr := v) && (n < 3 ==> w.at == OrigPtr(n + 1))
      && (n == 3 ==> if v <= 10 + 100000 * s.f.blockSize100k then w.at == Mapping1 && w.m.i == 0 else w.at == BadData)
  {
    hide State.CheckCode, State.AfterCode, State.AfterCoding2, State.AfterSelector3, State.AfterMapping1, State.AfterMapping2,
         State.InCode, State.RowSoFar;
  }

  // ---------------------------------------------------------- the mapping table

  type InUse = u: seq<bool> | |u| == 256 witness seq(256, _ => false)

  /** Any of the sixteen bytes of range k are in use. */
  predicate RangeUsed(u: InUse, k: nat)
    requires k < 16
  {
    exists c :: 16 * k <= c < 16 * (k + 1) && u[c]
  }

  function Flag(b: bool): Bit {
    if b then 1 else 0
  }

  /** Which ranges are in use, from the i-th on. */
  function RangeBits(u: InUse, i: nat): (b: seq<Bit>)
    requires i <= 16
    ensures |b| == 16 - i
    decreases 16 - i
  {
    if i == 16 then [] else [Flag(RangeUsed(u, i))] + RangeBits(u, i + 1)
  }

  /** Which bytes of range k, from the j-th on. */
  function CellBits(u: InUse, k: nat, j: nat): seq<Bit>
    requires k < 16 && j <= 16
    decreases 16 - j
  {
    if j == 16 then [] else [Flag(u[k * 16 + j])] + CellBits(u, k, j + 1)
  }

  /** Those of the ranges in use, from the k-th on. */
  function TableBits(u: InUse, k: nat): seq<Bit>
    requires k <= 16
    decreases 16 - k
  {
    if k == 16 then []
    else if RangeUsed(u, k) then CellBits(u, k, 0) + TableBits(u, k + 1)
    else TableBits(u, k + 1)
  }

  /** The ranges below the i-th are known. */
  predicate RangesKnown(f: Fields, u: InUse, i: int)
    ensures RangesKnown(f, u, i) ==> |f.inUse16| == 16
  {
    |f.inUse16| == 16 && 0 <= i <= 16 && forall k :: 0 <= k < i ==> f.inUse16[k] == RangeUsed(u, k)
  }

  /** The bytes below n are known, and no others marked. */
  predicate BytesKnown(f: Fields, u: InUse, n: int)
    ensures BytesKnown(f, u, n) ==> |f.inUse| == 256
  {
    |f.inUse| == 256 && forall c :: 0 <= c < 256 ==> f.inUse[c] == (c < n && u[c])
  }

  /** After the mapping table. */
  ghost predicate Mapped(f: Fields, u: InUse, s': State) {
    && s'.Valid() && s'.at == Selector1
    && s'.f == f.(inUse16 := s'.f.inUse16, inUse := u, bytes := UsedBelow(u, 256))
  }

  lemma {:induction false} MappedFrom(f: Fields, f1: Fields, u: InUse, s': State)
    requires Mapped(f1, u, s') && f1 == f.(inUse16 := f1.inUse16, inUse := f1.inUse)
    ensures Mapped(f, u, s')
  {
    hide State.Valid;
  }

  lemma {:induction false} RangesTaken(s: State, u: InUse, i: nat) returns (s': State)
    requires s.Valid() && s.at == Mapping1 && s.m.i == i <= 15 && RangesKnown(s.f, u, i) && UsedBelow(u, 256) != []
    ensures Takes(s, RangeBits(u, i) + TableBits(u, 0), s') && Mapped(s.f, u, s')
    decreases 16 - i
  {
    hide *;
    var b := Flag(RangeUsed(u, i));
    RangeStep(s, u, i);
    TakesOne(s, [b]);
    ValueOfBit(b);
    var w := s.After(b);
    TakesAt(s, [b], w, []);
    if i < 15 {
      s' := RangesTaken(w, u, i + 1);
      MappedFrom(s.f, w.f, u, s');
      TakesBoth(s, [b], w, RangeBits(u, i + 1) + TableBits(u, 0), s');
      assert [b] + (RangeBits(u, i + 1) + TableBits(u, 0)) == ([b] + RangeBits(u, i + 1)) + TableBits(u, 0);
    } else {
      var r := LastRange(s, u, b);
      s' := TableTaken(r, u, 0);
      MappedFrom(s.f, r.f, u, s');
      TakesBoth(s, [b], w, TableBits(u, 0), s');
      assert [b] + TableBits(u, 0) == ([b] + RangeBits(u, i + 1)) + TableBits(u, 0);
    }
  }

  lemma {:induction false} RangeStep(s: State, u: InUse, i: nat)
    requires s.Valid() && s.at == Mapping1 && s.m.i == i <= 15 && RangesKnown(s.f, u, i)
    ensures !s.at.Stopped() && s.Need() == 1
    ensures RangeBits(u, i) == [Flag(RangeUsed(u, i))] + RangeBits(u, i + 1) && (i == 15 ==> RangeBits(u, i + 1) == [])
    ensures var w := s.After(Flag(RangeUsed(u, i)));
      i < 15 ==> w.at == Mapping1 && w.m.i == i + 1 && RangesKnown(w.f, u, i + 1) && w.f == s.f.(inUse16 := w.f.inUse16)
  {
    hide State.CheckCode, State.AfterCode, State.AfterCoding2, State.AfterSelector3, State.AfterMapping2, State.NextRange,
         State.InCode, State.RowSoFar, RangeUsed, TableBits;
  }

  lemma {:induction false} LastRange(s: State, u: InUse, b: Bit) returns (r: State)
    requires s.Valid() && s.at == Mapping1 && s.m.i == 15 && RangesKnown(s.f, u, 15) && b == Flag(RangeUsed(u, 15))
    ensures r.Base() && RangesKnown(r.f, u, 16) && BytesKnown(r.f, u, 0) && s.After(b) == r.NextRange(0)
    ensures r.f == s.f.(inUse16 := r.f.inUse16, inUse := r.f.inUse)
  {
    hide State.CheckCode, State.AfterCode, State.AfterCoding2, State.AfterSelector3, State.AfterMapping2, State.NextRange,
         State.InCode, State.RowSoFar, RangeUsed;
    var f1 := s.f.(inUse16 := s.f.inUse16[15 := b == 1], inUse := seq(256, _ => false));
    r := s.(m := s.m.(uc := b), f := f1);
  }

  lemma {:induction false} TableTaken(r: State, u: InUse, k: nat) returns (s': State)
    requires r.Base() && k <= 16 && RangesKnown(r.f, u, 16) && BytesKnown(r.f, u, 16 * k) && UsedBelow(u, 256) != []
    ensures Takes(r.NextRange(k), TableBits(u, k), s') && Mapped(r.f, u, s')
    decreases 16 - k, 17
  {
    hide *;
    r.NextRangeValid(k);
    var w := r.NextRange(k);
    TableIs(r, u, k);
    if k == 16 {
      s' := w;
      AllKnown(r, u);
      TakesNothing(w);
    } else if RangeUsed(u, k) {
      s' := CellsTaken(w, u, k, 0);
    } else {
      NoneUsed(r.f, u, k);
      s' := TableTaken(r, u, k + 1);
    }
  }

  lemma {:induction false} TableIs(r: State, u: InUse, k: nat)
    requires r.Base() && k <= 16 && RangesKnown(r.f, u, 16) && BytesKnown(r.f, u, 16 * k)
    ensures var w := r.NextRange(k);
      && (k < 16 && RangeUsed(u, k) ==> w.at == Mapping2 && w.m.i == k && w.m.j == 0 && w.f == r.f && BytesKnown(w.f, u, 16 * k + 0))
      && (k < 16 && !RangeUsed(u, k) ==> w == r.NextRange(k + 1))
    ensures if k == 16 then TableBits(u, k) == []
      else TableBits(u, k) == if RangeUsed(u, k) then CellBits(u, k, 0) + TableBits(u, k + 1) else TableBits(u, k + 1)
  {
    hide RangeUsed, CellBits, BytesKnown;
  }

  lemma {:induction false} AllKnown(r: State, u: InUse)
    requires r.Base() && BytesKnown(r.f, u, 16 * 16) && UsedBelow(u, 256) != [] && r.NextRange(16).Valid()
    ensures Mapped(r.f, u, r.NextRange(16))
  {
    hide State.Valid;
    assert r.f.inUse == u;
  }

  lemma {:induction false} NoneUsed(f: Fields, u: InUse, k: nat)
    requires k < 16 && !RangeUsed(u, k) && BytesKnown(f, u, 16 * k)
    ensures BytesKnown(f, u, 16 * (k + 1))
  {
  }

  lemma {:induction false} CellsTaken(w: State, u: InUse, k: nat, j: nat) returns (s': State)
    requires w.Valid() && w.at == Mapping2 && k < 16 && j < 16 && w.m.i == k && w.m.j == j
    requires RangesKnown(w.f, u, 16) && BytesKnown(w.f, u, 16 * k + j) && UsedBelow(u, 256) != []
    ensures Takes(w, CellBits(u, k, j) + TableBits(u, k + 1), s') && Mapped(w.f, u, s')
    decreases 16 - k, 16 - j
  {
    hide *;
    var b := Flag(u[k * 16 + j]);
    CellStep(w, u, k, j);
    TakesOne(w, [b]);
    ValueOfBit(b);
    var x := w.After(b);
    TakesAt(w, [b], x, []);
    if j < 15 {
      s' := CellsTaken(x, u, k, j + 1);
      MappedFrom(w.f, x.f, u, s');
      TakesBoth(w, [b], x, CellBits(u, k, j + 1) + TableBits(u, k + 1), s');
      assert [b] + (CellBits(u, k, j + 1) + TableBits(u, k + 1)) == ([b] + CellBits(u, k, j + 1)) + TableBits(u, k + 1);
    } else {
      var r := LastCell(w, u, k, b);
      s' := TableTaken(r, u, k + 1);
      MappedFrom(w.f, r.f, u, s');
      TakesBoth(w, [b], x, TableBits(u, k + 1), s');
      assert [b] + TableBits(u, k + 1) == ([b] + CellBits(u, k, j + 1)) + TableBits(u, k + 1);
    }
  }

  lemma {:induction false} CellStep(w: State, u: InUse, k: nat, j: nat)
    requires w.Valid() && w.at == Mapping2 && k < 16 && j < 16 && w.m.i == k && w.m.j == j
    requires RangesKnown(w.f, u, 16) && BytesKnown(w.f, u, 16 * k + j)
    ensures !w.at.Stopped() && w.Need() == 1
    ensures CellBits(u, k, j) == [Flag(u[k * 16 + j])] + CellBits(u, k, j + 1) && (j == 15 ==> CellBits(u, k, j + 1) == [])
    ensures j < 15 ==> var x := w.After(Flag(u[k * 16 + j]));
      x.at == Mapping2 && x.m.i == k && x.m.j == j + 1 && x.f == w.f.(inUse := x.f.inUse)
      && RangesKnown(x.f, u, 16) && BytesKnown(x.f, u, 16 * k + (j + 1))
  {
    hide *;
    CellBitsIs(u, k, j);
    CellNeed(w);
    if j < 15 {
      CellRead(w, u, k, j, Flag(u[k * 16 + j]));
      BytesMore(w.f, w.After(Flag(u[k * 16 + j])).f, u, 16 * k + j);
      RangesSame(w.f, w.After(Flag(u[k * 16 + j])).f, u);
    }
  }

  lemma {:induction false} CellBitsIs(u: InUse, k: nat, j: nat)
    requires k < 16 && j < 16
    ensures CellBits(u, k, j) == [Flag(u[k * 16 + j])] + CellBits(u, k, j + 1) && (j == 15 ==> CellBits(u, k, j + 1) == [])
  {
  }

  lemma {:induction false} CellNeed(w: State)
    requires w.at == Mapping2
    ensures !w.at.Stopped() && w.Need() == 1
  {
  }

  lemma {:induction false} CellRead(w: State, u: InUse, k: nat, j: nat, b: Bit)
    requires w.Valid() && w.at == Mapping2 && !w.at.Stopped() && k < 16 && j < 15 && w.m.i == k && w.m.j == j && b == Flag(u[k * 16 + j])
    ensures |w.f.inUse| == 256
    ensures var x := w.After(b);
      x.at == Mapping2 && x.m.i == k && x.m.j == j + 1 && x.f == w.f.(inUse := x.f.inUse)
      && x.f.inUse == if u[16 * k + j] then w.f.inUse[16 * k + j := true] else w.f.inUse
  {
    hide State.CheckCode, State.AfterCode, State.AfterCoding2, State.AfterSelector3, State.AfterMapping1, State.NextRange,
         State.InCode, State.RowSoFar;
  }

  lemma {:induction false} RangesSame(f: Fields, f': Fields, u: InUse)
    requires RangesKnown(f, u, 16) && f'.inUse16 == f.inUse16
    ensures RangesKnown(f', u, 16)
  {
  }

  lemma {:induction false} BytesMore(f: Fields, f': Fields, u: InUse, n: nat)
    requires BytesKnown(f, u, n) && n < 256 && f'.inUse == if u[n] then f.inUse[n := true] else f.inUse
    ensures BytesKnown(f', u, n + 1)
  {
  }

  lemma {:induction false} LastCell(w: State, u: InUse, k: nat, b: Bit) returns (r: State)
    requires w.Valid() && w.at == Mapping2 && k < 16 && w.m.i == k && w.m.j == 15 && b == Flag(u[k * 16 + 15])
    requires RangesKnown(w.f, u, 16) && BytesKnown(w.f, u, 16 * k + 15)
    ensures r.Base() && RangesKnown(r.f, u, 16) && BytesKnown(r.f, u, 16 * (k + 1)) && w.After(b) == r.NextRange(k + 1)
    ensures r.f == w.f.(inUse16 := r.f.inUse16, inUse := r.f.inUse)
  {
    hide State.CheckCode, State.AfterCode, State.AfterCoding2, State.AfterSelector3, State.AfterMapping1, State.NextRange,
         State.InCode, State.RowSoFar, RangeUsed, BytesKnown;
    var y := w.(m := w.m.(uc := b));
    r := if b == 1 then y.(f := w.f.(inUse := w.f.inUse[k * 16 + 15 := true])) else y;
    BytesMore(w.f, r.f, u, 16 * k + 15);
  }

  // ------------------------------------------------------------- the selectors

  /** The move-to-front coding of the selectors. */
  function CodeSelectors(sel: seq<nat>, pos: Text): (c: seq<nat>)
    requires forall i :: 0 <= i < |sel| ==> sel[i] in pos
    ensures |c| == |sel| && forall i :: 0 <= i < |c| ==> c[i] < |pos|
    decreases |sel|
  {
    if sel == [] then []
    else
      var k := PlaceOf(pos, sel[0]);
      KeepsMembers(pos, k, sel);
      [k] + CodeSelectors(sel[1..], ToFront(pos, k))
  }

  function PlaceOf(pos: Text, c: nat): (k: nat)
    requires c in pos
    ensures k < |pos| && pos[k] == c
  {
    if pos[0] == c then 0 else 1 + PlaceOf(pos[1..], c)
  }

  lemma {:induction false} KeepsMembers(pos: Text, k: nat, sel: seq<nat>)
    requires k < |pos| && forall i :: 0 <= i < |sel| ==> sel[i] in pos
    ensures |ToFront(pos, k)| == |pos| && forall i :: 0 <= i < |sel| ==> sel[i] in ToFront(pos, k)
  {
    forall i | 0 <= i < |sel| ensures sel[i] in ToFront(pos, k) {
      var a :| 0 <= a < |pos| && pos[a] == sel[i];
      var b := if a == k then 0 else if a < k then a + 1 else a;
      ToFrontAt(pos, k, b);
    }
  }

  lemma {:induction false} SelectorsBack(sel: seq<nat>, pos: Text)
    requires forall i :: 0 <= i < |sel| ==> sel[i] in pos
    ensures UndoMtf(CodeSelectors(sel, pos), pos) == sel
    decreases |sel|
  {
    if sel != [] {
      var k := PlaceOf(pos, sel[0]);
      KeepsMembers(pos, k, sel);
      SelectorsBack(sel[1..], ToFront(pos, k));
      var c := CodeSelectors(sel, pos);
      assert c[0] == k && c[1..] == CodeSelectors(sel[1..], ToFront(pos, k));
    }
  }

  /** A number by as many ones and a zero. */
  function UnaryBits(n: nat): seq<Bit> {
    if n == 0 then [0] else [1] + UnaryBits(n - 1)
  }

  function AllUnary(c: seq<nat>): seq<Bit>
    decreases |c|
  {
    if c == [] then [] else UnaryBits(c[0]) + AllUnary(c[1..])
  }

  /** After the selectors. */
  ghost predicate Selected(s: State, sel: seq<nat>, s': State) {
    && s'.Valid() && s'.at == Coding1 && s'.m.t == 0 && s'.m.nGroups == s.m.nGroups
    && s'.f == s.f.(selectorMtf := s'.f.selectorMtf, selector := sel, len := [], cur := [])
  }

  /** The coded selectors below the i-th are in. */
  predicate SelectorsIn(s: State, c: seq<nat>, i: nat) {
    && s.at == Selector3 && s.m.i == i < |c| == s.m.nSelectors && 2 <= s.m.nGroups <= 6
    && s.f.selectorMtf == c[..i] && 0 <= s.m.j <= c[i]
    && forall k :: 0 <= k < |c| ==> c[k] < s.m.nGroups
  }

  lemma {:induction false} SelectorsTaken(s: State, c: seq<nat>, i: nat, sel: seq<nat>) returns (s': State)
    requires s.Valid() && SelectorsIn(s, c, i) && sel == UndoMtf(c, Identity(s.m.nGroups))
    ensures Takes(s, UnaryBits(c[i] - s.m.j) + AllUnary(c[i + 1..]), s') && Selected(s, sel, s')
    decreases |c| - i, c[i] - s.m.j
  {
    hide *;
    var left: nat := LeftToRead(s, c, i);
    var b: Bit := if left > 0 then 1 else 0;
    SelectorStep(s, c, i, b);
    TakesOne(s, [b]);
    ValueOfBit(b);
    var w := s.After(b);
    TakesAt(s, [b], w, []);
    if left > 0 {
      s' := SelectorsTaken(w, c, i, sel);
      SelectedFrom(s, w, sel, s');
      TakesBoth(s, [b], w, UnaryBits(left - 1) + AllUnary(c[i + 1..]), s');
      UnaryOne(left);
      assert [b] + (UnaryBits(left - 1) + AllUnary(c[i + 1..])) == [1] + UnaryBits(left - 1) + AllUnary(c[i + 1..]);
    } else if i + 1 < |c| {
      s' := SelectorsTaken(w, c, i + 1, sel);
      SelectedFrom(s, w, sel, s');
      UnaryNext(c, i);
      TakesBoth(s, [b], w, UnaryBits(c[i + 1] - 0) + AllUnary(c[i + 2..]), s');
    } else {
      s' := w;
      SelectorsDone(s, c, sel);
      UnaryLast(c, i);
    }
  }

  lemma {:induction false} LeftToRead(s: State, c: seq<nat>, i: nat) returns (left: nat)
    requires SelectorsIn(s, c, i)
    ensures left == c[i] - s.m.j && i < |c|
  {
    left := c[i] - s.m.j;
  }

  lemma {:induction false} UnaryOne(n: nat)
    requires n > 0
    ensures UnaryBits(n) == [1] + UnaryBits(n - 1)
  {
  }

  lemma {:induction false} UnaryNext(c: seq<nat>, i: nat)
    requires i + 1 < |c|
    ensures UnaryBits(0) + AllUnary(c[i + 1..]) == [0] + (UnaryBits(c[i + 1] - 0) + AllUnary(c[i + 2..]))
  {
    assert c[i + 1..][1..] == c[i + 2..] && c[i + 1..][0] == c[i + 1];
  }

  lemma {:induction false} UnaryLast(c: seq<nat>, i: nat)
    requires i + 1 == |c|
    ensures UnaryBits(0) + AllUnary(c[i + 1..]) == [0]
  {
  }

  lemma {:induction false} SelectedFrom(s: State, w: State, sel: seq<nat>, s': State)
    requires Selected(w, sel, s') && w.m.nGroups == s.m.nGroups && w.f == s.f.(selectorMtf := w.f.selectorMtf)
    ensures Selected(s, sel, s')
  {
    hide State.Valid;
  }

  lemma {:induction false} SelectorStep(s: State, c: seq<nat>, i: nat, b: Bit)
    requires s.Valid() && SelectorsIn(s, c, i) && b == if c[i] - s.m.j > 0 then 1 else 0
    ensures !s.at.Stopped() && s.Need() == 1
    ensures var w := s.After(b);
      && (b == 1 ==> SelectorsIn(w, c, i) && w.m.j == s.m.j + 1 && w.f == s.f)
      && (b == 0 && i + 1 < |c| ==> SelectorsIn(w, c, i + 1) && w.m.j == 0 && w.f == s.f.(selectorMtf := w.f.selectorMtf))
      && ((b == 1 || i + 1 < |c|) ==> w.m.nGroups == s.m.nGroups)
  {
    hide State.CheckCode, State.AfterCode, State.AfterCoding2, State.AfterMapping1, State.AfterMapping2, State.InCode, State.RowSoFar;
  }

  lemma {:induction false} SelectorsDone(s: State, c: seq<nat>, sel: seq<nat>)
    requires s.Valid() && c != [] && SelectorsIn(s, c, |c| - 1) && c[|c| - 1] == s.m.j && sel == UndoMtf(c, Identity(s.m.nGroups))
    requires !s.at.Stopped() && s.After(0).Valid()
    ensures Selected(s, sel, s.After(0))
  {
    hide State.CheckCode, State.AfterCode, State.AfterCoding2, State.AfterMapping1, State.AfterMapping2, State.InCode, State.RowSoFar;
    assert c[..|c| - 1] + [s.m.j] == c;
  }

  /** How many codes and selectors there are. */
  lemma {:induction false} CountsTaken(s: State, n: nat, c: seq<nat>) returns (s': State)
    requires s.Valid() && s.at == Selector1 && 2 <= n <= 6 && 1 <= |c| < 0x8000 && forall k :: 0 <= k < |c| ==> c[k] < n
    ensures Takes(s, BitsOf(n, 3) + BitsOf(|c|, 15), s') && s'.Valid()
    ensures SelectorsIn(s', c, 0) && s'.m.j == 0 && s'.m.nGroups == n && s'.f == s.f.(selectorMtf := [])
  {
    hide *;
    Powers();
    GroupsStep(s, n);
    TakesNumber(s, n, 3);
    var w := s.After(n);
    TakesAt(s, BitsOf(n, 3), w, []);
    SelectorCountStep(w, n, c);
    TakesNumber(w, |c|, 15);
    s' := w.After(|c|);
    TakesAt(w, BitsOf(|c|, 15), s', []);
    TakesBoth(s, BitsOf(n, 3), w, BitsOf(|c|, 15), s');
  }

  lemma {:induction false} Powers()
    ensures Pow2(3) == 8 && Pow2(5) == 32 && Pow2(15) == 0x8000
  {
    Pow2Values();
    Pow2Add(8, 4);
    Pow2Add(12, 3);
  }

  lemma {:induction false} GroupsStep(s: State, n: nat)
    requires s.Valid() && s.at == Selector1 && 2 <= n <= 6
    ensures !s.at.Stopped() && s.Need() == 3
    ensures var w := s.After(n); w.at == Selector2 && w.m.nGroups == n && w.f == s.f
  {
    hide State.CheckCode, State.AfterCode, State.AfterCoding2, State.AfterMapping1, State.AfterMapping2, State.AfterSelector3, State.InCode;
  }

  lemma {:induction false} SelectorCountStep(w: State, n: nat, c: seq<nat>)
    requires w.Valid() && w.at == Selector2 && w.m.nGroups == n && 2 <= n <= 6 && c != [] && forall k :: 0 <= k < |c| ==> c[k] < n
    ensures !w.at.Stopped() && w.Need() == 15
    ensures var x := w.After(|c|); SelectorsIn(x, c, 0) && x.m.j == 0 && x.m.nGroups == n && x.f == w.f.(selectorMtf := [])
  {
    hide State.CheckCode, State.AfterCode, State.AfterCoding2, State.AfterMapping1, State.AfterMapping2, State.AfterSelector3, State.InCode;
  }

  // --------------------------------------------------------- the coding tables

  /** The lengths from the i-th on, each as steps from the one before it. */
  function DeltaBits(l: Text, i: nat, cur: int): seq<Bit>
    requires i <= |l|
    decreases |l| - i, if i == |l| then 0 else if cur < l[i] then l[i] - cur else cur - l[i]
  {
    if i == |l| then []
    else if cur < l[i] then [1, 0] + DeltaBits(l, i, cur + 1)
    else if cur > l[i] then [1, 1] + DeltaBits(l, i, cur - 1)
    else [0] + DeltaBits(l, i + 1, cur)
  }

  /** The tables from the t-th on. */
  function LengthBits(len: seq<Text>, t: nat): seq<Bit>
    requires t <= |len| && forall k :: 0 <= k < |len| ==> len[k] != []
    decreases |len| - t
  {
    if t == |len| then [] else BitsOf(len[t][0], 5) + DeltaBits(len[t], 0, len[t][0]) + LengthBits(len, t + 1)
  }

  predicate GoodRows(len: seq<Text>, n: nat)
    ensures GoodRows(len, n) ==> forall k :: 0 <= k < |len| ==> len[k] != []
  {
    forall k :: 0 <= k < |len| ==> |len[k]| == n + 2 && forall i :: 0 <= i < |len[k]| ==> 1 <= len[k][i] <= 20
  }

  /** The tables below the t-th are in. */
  predicate RowsIn(s: State, len: seq<Text>, t: nat) {
    && s.m.t == t < |len| == s.m.nGroups && s.f.len == len[..t] && GoodRows(len, |s.f.bytes|)
  }

  /** And of that the lengths below the i-th. */
  predicate RowIn(w: State, len: seq<Text>, t: nat, i: nat, cur: int) {
    RowsIn(w, len, t) && w.m.i == i < |len[t]| && w.f.cur == len[t][..i] && w.m.curr == cur
  }

  /** After the tables, and before the first symbol. */
  ghost predicate Tabled(f: Fields, len: seq<Text>, s': State) {
    && s'.Valid() && s'.at == MtfCode(Site.First) && Asked(s', 1)
    && s'.f == f.(len := len, cur := s'.f.cur, tables := s'.f.tables, unzftab := seq(256, _ => 0), list := Identity(256), block := [])
  }

  lemma {:induction false} TabledFrom(f: Fields, f1: Fields, len: seq<Text>, s': State)
    requires Tabled(f1, len, s') && f1 == f.(len := f1.len, cur := f1.cur)
    ensures Tabled(f, len, s')
  {
    hide State.Valid;
  }

  lemma {:induction false} TablesTaken(s: State, len: seq<Text>, t: nat) returns (s': State)
    requires s.Valid() && s.at == Coding1 && RowsIn(s, len, t)
    ensures Takes(s, LengthBits(len, t), s') && Tabled(s.f, len, s')
    decreases |len| - t, 1, 0, 0
  {
    hide *;
    Powers();
    RowStart(s, len, t);
    var v: nat := len[t][0];
    TakesNumber(s, v, 5);
    var w := s.After(v);
    TakesAt(s, BitsOf(v, 5), w, []);
    s' := RowTaken(w, len, t, 0, v);
    TabledFrom(s.f, w.f, len, s');
    TakesBoth(s, BitsOf(v, 5), w, DeltaBits(len[t], 0, v) + LengthBits(len, t + 1), s');
    assert BitsOf(v, 5) + (DeltaBits(len[t], 0, v) + LengthBits(len, t + 1)) == BitsOf(v, 5) + DeltaBits(len[t], 0, v) + LengthBits(len, t + 1);
  }

  lemma {:induction false} RowStart(s: State, len: seq<Text>, t: nat)
    requires s.Valid() && s.at == Coding1 && RowsIn(s, len, t)
    ensures !s.at.Stopped() && s.Need() == 5 && t < |len| && len[t] != [] && 1 <= len[t][0] <= 20 && GoodRows(len, |s.f.bytes|)
    ensures LengthBits(len, t) == BitsOf(len[t][0], 5) + DeltaBits(len[t], 0, len[t][0]) + LengthBits(len, t + 1)
    ensures var w := s.After(len[t][0]); w.at == Coding2 && RowIn(w, len, t, 0, len[t][0]) && w.f == s.f.(cur := w.f.cur)
  {
    hide State.CheckCode, State.AfterCode, State.AfterCoding2, State.AfterMapping1, State.AfterMapping2, State.AfterSelector3,
         State.InCode, DeltaBits;
  }

  lemma {:induction false} RowTaken(w: State, len: seq<Text>, t: nat, i: nat, cur: int) returns (s': State)
    requires w.Valid() && w.at == Coding2 && RowIn(w, len, t, i, cur) && 1 <= cur <= 20
    ensures t < |len| && i < |len[t]| && GoodRows(len, |w.f.bytes|)
    ensures Takes(w, DeltaBits(len[t], i, cur) + LengthBits(len, t + 1), s') && Tabled(w.f, len, s')
    decreases |len| - t, 0, if t < |len| then |len[t]| - i else 0,
      if t < |len| && i < |len[t]| then (if cur < len[t][i] then len[t][i] - cur else cur - len[t][i]) else 0
  {
    hide *;
    RowFacts(w, len, t, i, cur);
    var l, more := len[t], LengthBits(len, t + 1);
    if cur != l[i] {
      var x, d := DeltaTaken(w, len, t, i, cur);
      s' := RowTaken(x, len, t, i, cur + d);
      var b: Bit := if d == 1 then 0 else 1;
      TakesBoth(w, [1, b], x, DeltaBits(l, i, cur + d) + more, s');
      TabledFrom(w.f, x.f, len, s');
      DeltaMore(l, i, cur, d);
      assert [1, b] + (DeltaBits(l, i, cur + d) + more) == [1, b] + DeltaBits(l, i, cur + d) + more;
    } else {
      SameStep(w, len, t, i, cur);
      TakesOne(w, [0]);
      ValueOfBit(0);
      var x := w.After(0);
      TakesAt(w, [0], x, []);
      DeltaSame(l, i, cur);
      if i + 1 < |l| {
        s' := RowTaken(x, len, t, i + 1, cur);
        TakesBoth(w, [0], x, DeltaBits(l, i + 1, cur) + more, s');
        TabledFrom(w.f, x.f, len, s');
        assert [0] + (DeltaBits(l, i + 1, cur) + more) == [0] + DeltaBits(l, i + 1, cur) + more;
      } else if t + 1 < |len| {
        s' := TablesTaken(x, len, t + 1);
        TakesBoth(w, [0], x, more, s');
        TabledFrom(w.f, x.f, len, s');
        assert [0] + more == [0] + [] + more;
      } else {
        s' := x;
        LastTable(w, len, i, cur);
        NoTables(len);
        assert [0] == [0] + [] + [];
      }
    }
  }

  lemma {:induction false} RowFacts(w: State, len: seq<Text>, t: nat, i: nat, cur: int)
    requires RowIn(w, len, t, i, cur)
    ensures t < |len| && i < |len[t]| && GoodRows(len, |w.f.bytes|) && 1 <= len[t][i] <= 20 && |len[t]| == |w.f.bytes| + 2
  {
  }

  lemma {:induction false} NoTables(len: seq<Text>)
    requires forall k :: 0 <= k < |len| ==> len[k] != []
    ensures LengthBits(len, |len|) == []
  {
  }

  lemma {:induction false} DeltaMore(l: Text, i: nat, cur: int, d: int)
    requires i < |l| && d == (if cur < l[i] then 1 else -1) && cur != l[i]
    ensures DeltaBits(l, i, cur) == [1, if d == 1 then 0 else 1] + DeltaBits(l, i, cur + d)
  {
  }

  lemma {:induction false} DeltaSame(l: Text, i: nat, cur: int)
    requires i < |l| && cur == l[i]
    ensures DeltaBits(l, i, cur) == [0] + DeltaBits(l, i + 1, cur) && (i + 1 == |l| ==> DeltaBits(l, i + 1, cur) == [])
  {
  }

  /** One step up or down. */
  lemma {:induction false} DeltaTaken(w: State, len: seq<Text>, t: nat, i: nat, cur: int) returns (x: State, d: int)
    requires w.Valid() && w.at == Coding2 && RowIn(w, len, t, i, cur) && 1 <= cur <= 20
    requires t < |len| && i < |len[t]| && cur != len[t][i]
    ensures d == (if cur < len[t][i] then 1 else -1) && 1 <= cur + d <= 20
    ensures x.Valid() && x.at == Coding2 && RowIn(x, len, t, i, cur + d) && x.f == w.f
    ensures Takes(w, [1, if d == 1 then 0 else 1], x)
  {
    hide *;
    RowFacts(w, len, t, i, cur);
    d := if cur < len[t][i] then 1 else -1;
    var b: Bit := if d == 1 then 0 else 1;
    UpOrDown(w, len, t, i, cur);
    ValueOfBit(1);
    TakesOne(w, [1]);
    var y := w.After(1);
    TakesAt(w, [1], y, []);
    DeltaStep(y, len, t, i, cur, d, b);
    ValueOfBit(b);
    TakesOne(y, [b]);
    x := y.After(b);
    TakesAt(y, [b], x, []);
    TakesBoth(w, [1], y, [b], x);
    assert [1] + [b] == [1, b];
  }

  lemma {:induction false} UpOrDown(w: State, len: seq<Text>, t: nat, i: nat, cur: int)
    requires w.Valid() && w.at == Coding2 && RowIn(w, len, t, i, cur)
    ensures !w.at.Stopped() && w.Need() == 1
    ensures var y := w.After(1); y.at == Coding3 && RowIn(y, len, t, i, cur) && y.f == w.f
  {
    hide State.CheckCode, State.AfterCode, State.AfterMapping1, State.AfterMapping2, State.AfterSelector3, State.InCode,
         State.BuildTables, State.BeginSymbols;
  }

  lemma {:induction false} DeltaStep(y: State, len: seq<Text>, t: nat, i: nat, cur: int, d: int, b: Bit)
    requires y.Valid() && y.at == Coding3 && RowIn(y, len, t, i, cur) && 1 <= cur + d <= 20
    requires (d == 1 && b == 0) || (d == -1 && b == 1)
    ensures !y.at.Stopped() && y.Need() == 1
    ensures var x := y.After(b); x.at == Coding2 && RowIn(x, len, t, i, cur + d) && x.f == y.f
  {
    hide State.CheckCode, State.AfterCode, State.AfterMapping1, State.AfterMapping2, State.AfterSelector3, State.AfterCoding2,
         State.InCode;
  }

  /** A length is right: on to the next, to the next table or to the symbols. */
  lemma {:induction false} SameStep(w: State, len: seq<Text>, t: nat, i: nat, cur: int)
    requires w.Valid() && w.at == Coding2 && RowIn(w, len, t, i, cur) && t < |len| && i < |len[t]| && cur == len[t][i]
    ensures !w.at.Stopped() && w.Need() == 1
    ensures var x := w.After(0);
      && (i + 1 < |len[t]| ==> x.at == Coding2 && RowIn(x, len, t, i + 1, cur) && x.f == w.f.(cur := x.f.cur))
      && (i + 1 == |len[t]| && t + 1 < |len| ==> x.at == Coding1 && RowsIn(x, len, t + 1) && x.f == w.f.(len := x.f.len, cur := x.f.cur))
  {
    hide State.CheckCode, State.AfterCode, State.AfterMapping1, State.AfterMapping2, State.AfterSelector3, State.InCode,
         State.BuildTables, State.BeginSymbols;
    assert len[t][..i] + [cur] == len[t][..i + 1];
    assert i + 1 == |len[t]| ==> len[t][..i + 1] == len[t];
    assert len[..t] + [len[t]] == len[..t + 1];
  }

  /** What follows the last table. */
  function Begun(y: State): State
    requires y.AllLengths()
  {
    y.BuildTables().BeginSymbols()
  }

  lemma {:induction false} LastTable(w: State, len: seq<Text>, i: nat, cur: int)
    requires len != [] && w.Valid() && w.at == Coding2 && RowIn(w, len, |len| - 1, i, cur) && i + 1 == |len[|len| - 1]|
    requires cur == len[|len| - 1][i] && !w.at.Stopped() && w.After(0).Valid()
    ensures Tabled(w.f, len, w.After(0))
  {
    hide *;
    var y := LastRow(w, len, i, cur);
    BeginIs(y);
    NowTabled(w.f, len, y.f, w.After(0));
  }

  lemma {:induction false} NowTabled(f: Fields, len: seq<Text>, f1: Fields, s': State)
    requires s'.Valid() && s'.at == MtfCode(Site.First) && Asked(s', 1) && f1 == f.(len := len, cur := f1.cur)
    requires s'.f == f1.(tables := s'.f.tables, unzftab := seq(256, _ => 0), list := Identity(256), block := [])
    ensures Tabled(f, len, s')
  {
    hide State.Valid;
  }

  lemma {:induction false} LastRow(w: State, len: seq<Text>, i: nat, cur: int) returns (y: State)
    requires len != [] && w.Valid() && w.at == Coding2 && RowIn(w, len, |len| - 1, i, cur) && i + 1 == |len[|len| - 1]|
    requires cur == len[|len| - 1][i] && !w.at.Stopped()
    ensures y.AllLengths() && w.After(0) == Begun(y) && y.f == w.f.(len := len, cur := y.f.cur)
  {
    hide State.CheckCode, State.AfterCode, State.AfterMapping1, State.AfterMapping2, State.AfterSelector3, State.InCode,
         State.BuildTables, State.BeginSymbols;
    var t := |len| - 1;
    assert len[t][..i] + [cur] == len[t];
    assert len[..t] + [len[t]] == len;
    y := w.(m := w.m.(uc := 0, i := w.m.i + 1, t := w.m.t + 1), f := w.f.(cur := w.f.cur + [cur], len := len));
  }

  lemma {:induction false} BeginIs(y: State)
    requires y.AllLengths()
    ensures var s' := Begun(y);
      && s'.at == MtfCode(Site.First) && Asked(s', 1)
      && s'.f == y.f.(tables := s'.f.tables, unzftab := seq(256, _ => 0), list := Identity(256), block := [])
  {
    hide MakeTables, MinLen, MaxLen, Tables.For, State.AllTables;
  }

  // ------------------------------------------------------------ a whole block

  /** What the bits of one block say. */
  datatype Layout = Layout(crc: Word, randomised: bool, origPtr: nat, inUse: InUse, selector: seq<nat>, len: seq<Text>,
                           syms: seq<nat>)
  {
    function Bytes(): Text {
      UsedBelow(inUse, 256)
    }

    /** A block as the format has it: bytes in use, two to six codes that can be told
        apart, a selector for every fifty symbols, and symbols up to the end of block. */
    ghost predicate Ok()
      ensures Ok() ==> Alphabet(Identity(256), Bytes()) && SymbolsIn(syms, Bytes()) && Spelled(len, selector, syms, 0)
      ensures Ok() ==> |len| <= 6 && (forall i :: 0 <= i < |selector| ==> selector[i] in Identity(|len|)) && forall k :: 0 <= k < |len| ==> len[k] != []
    {
      UsedExactly(inUse, 256);
      && Bytes() != [] && 2 <= |len| <= 6 && (forall k :: 0 <= k < |len| ==> |len[k]| == |Bytes()| + 2 && Codes(len[k]))
      && 1 <= |selector| < 0x8000 && (forall k :: 0 <= k < |selector| ==> selector[k] < |len| && Identity(|len|)[selector[k]] == selector[k])
      && Whole(syms, Bytes()) && |syms| <= 50 * |selector| && origPtr < 0x100_0000
    }

    /** The block that the symbols stand for. */
    ghost function Block(max: nat): Outcome
      requires Ok()
    {
      DecodeFrom(syms, Identity(256), Bytes(), [], NoLoss(), max)
    }

    ghost function CodeBits(): seq<Bit>
      requires Ok()
    {
      LengthBits(len, 0) + SymbolBits(len, selector, syms, 0)
    }

    ghost function SelectorBits(): seq<Bit>
      requires Ok()
    {
      (BitsOf(|len|, 3) + BitsOf(|selector|, 15)) + (AllUnary(CodeSelectors(selector, Identity(|len|))) + CodeBits())
    }

    ghost function Bits(): seq<Bit>
      requires Ok()
    {
      BitsOfText(HeaderFrom(1)) + (BitsOfText(BytesOf(crc, 4)) + ([Flag(randomised)] + (BitsOfText(BytesOf(origPtr, 3))
      + ((RangeBits(inUse, 0) + TableBits(inUse, 0)) + SelectorBits()))))
    }
  }

  /** The fields read before the mapping table. */
  predicate HeadIs(f: Fields, b: Layout, size: int) {
    f.storedBlockCRC == b.crc && f.randomised == b.randomised && f.origPtr == b.origPtr && f.blockSize100k == size
  }

  /** The machine stands before the output of the block, or has refused it: that, exactly
      when it does not fit or the start row is none of its rows. */
  ghost predicate Came(b: Layout, size: nat, s': State)
    requires b.Ok()
  {
    var o := b.Block(100000 * size);
    if o.Done? && b.origPtr < |o.text| then
      s'.at == Output && HeadIs(s'.f, b, size) && s'.f.block == o.text && Tally(s'.f.unzftab, o.text, o.lost)
    else s'.at == BadData
  }

  lemma {:induction false} NowCame(b: Layout, size: nat, f: Fields, s': State)
    requires b.Ok() && HeadIs(f, b, size) && Settled(f, s', b.Block(100000 * size))
    ensures Came(b, size, s')
  {
    hide Tally, Layout.Ok, Layout.Block;
  }

  lemma {:induction false} CodesTaken(b: Layout, size: nat, s: State) returns (s': State)
    requires b.Ok() && s.Valid() && s.at == Coding1 && s.m.t == 0 && s.m.nGroups == |b.len| && s.f.len == []
    requires s.f.bytes == b.Bytes() && s.f.selector == b.selector && HeadIs(s.f, b, size)
    ensures Came(b, size, s') && Comes(s, b.CodeBits(), s')
  {
    hide *;
    RowsStart(b, s);
    LayoutParts(b);
    var w := TablesTaken(s, b.len, 0);
    SymbolsStart(b, size, s.f, w);
    s' := LoopTaken(w, 0, b.syms, [], NoLoss(), b.Block(100000 * size));
    NowCame(b, size, w.f, s');
    CodeBitsIs(b);
    ComesAfter(s, LengthBits(b.len, 0), w, SymbolBits(b.len, b.selector, b.syms, 0), s');
  }

  lemma {:induction false} LayoutParts(b: Layout)
    requires b.Ok()
    ensures 2 <= |b.len| <= 6 && 1 <= |b.selector| < 0x8000 && b.Bytes() != [] && b.Bytes() == UsedBelow(b.inUse, 256)
    ensures Spelled(b.len, b.selector, b.syms, 0) && b.origPtr < 0x100_0000
    ensures (forall i :: 0 <= i < |b.selector| ==> b.selector[i] in Identity(|b.len|)) && forall k :: 0 <= k < |b.len| ==> b.len[k] != []
  {
    hide Codes;
  }

  lemma {:induction false} CodeBitsIs(b: Layout)
    requires b.Ok()
    ensures b.CodeBits() == LengthBits(b.len, 0) + SymbolBits(b.len, b.selector, b.syms, 0)
  {
    hide Codes, LengthBits, SymbolBits;
  }

  lemma {:induction false} RowsStart(b: Layout, s: State)
    requires b.Ok() && s.m.t == 0 && s.m.nGroups == |b.len| && s.f.len == [] && s.f.bytes == b.Bytes()
    ensures RowsIn(s, b.len, 0)
  {
    hide Kraft, Whole;
    forall k | 0 <= k < |b.len| ensures |b.len[k]| == |b.Bytes()| + 2 && forall i :: 0 <= i < |b.len[k]| ==> 1 <= b.len[k][i] <= 20 {
      assert Codes(b.len[k]);
    }
  }

  lemma {:induction false} SymbolsStart(b: Layout, size: nat, f: Fields, w: State)
    requires b.Ok() && Tabled(f, b.len, w) && f.bytes == b.Bytes() && f.selector == b.selector && HeadIs(f, b, size)
    ensures Asking(w, 0, b.syms, [], NoLoss(), b.Block(100000 * size)) && HeadIs(w.f, b, size)
    ensures w.f.len == b.len && w.f.selector == b.selector
  {
    hide State.Valid, DecodeFrom, Codes, State.InCode, State.Base, Tally;
    AskedFor(w);
    MostBytes(w);
    TallyZero(w.f.unzftab);
    assert [] + b.syms == b.syms;
    NowToward(w, 0, b.syms, [], NoLoss(), b.Block(100000 * size));
    NowAsking(w, 0, b.syms, [], NoLoss(), b.Block(100000 * size));
  }

  lemma {:induction false} MostBytes(w: State)
    requires w.Base() && w.InCode()
    ensures 0 <= w.m.nblockMAX == 100000 * w.f.blockSize100k
  {
    hide Tables.For, Alphabet;
  }

  lemma {:induction false} SelectorPart(b: Layout, size: nat, s: State) returns (s': State)
    requires b.Ok() && s.Valid() && s.at == Selector1 && s.f.bytes == b.Bytes() && HeadIs(s.f, b, size)
    ensures Came(b, size, s') && Comes(s, b.SelectorBits(), s')
  {
    hide *;
    LayoutParts(b);
    var c := CodeSelectors(b.selector, Identity(|b.len|));
    SelectorsBack(b.selector, Identity(|b.len|));
    var w := CountsTaken(s, |b.len|, c);
    CodedParts(w, c, b);
    var x := SelectorsTaken(w, c, 0, b.selector);
    CodesReady(b, size, s, w, x);
    s' := CodesTaken(b, size, x);
    ComesAfter(w, AllUnary(c), x, b.CodeBits(), s');
    ComesAfter(s, BitsOf(|b.len|, 3) + BitsOf(|c|, 15), w, AllUnary(c) + b.CodeBits(), s');
    SelectorBitsIs(b);
  }

  lemma {:induction false} CodedParts(w: State, c: seq<nat>, b: Layout)
    requires SelectorsIn(w, c, 0) && w.m.j == 0
    ensures |c| > 0 && UnaryBits(c[0] - w.m.j) + AllUnary(c[1..]) == AllUnary(c)
  {
  }

  lemma {:induction false} CodesReady(b: Layout, size: nat, s: State, w: State, x: State)
    requires s.f.bytes == b.Bytes() && HeadIs(s.f, b, size) && w.f == s.f.(selectorMtf := []) && w.m.nGroups == |b.len|
    requires Selected(w, b.selector, x)
    ensures x.Valid() && x.at == Coding1 && x.m.t == 0 && x.m.nGroups == |b.len| && x.f.len == []
    ensures x.f.bytes == b.Bytes() && x.f.selector == b.selector && HeadIs(x.f, b, size)
  {
    hide State.Valid;
  }

  lemma {:induction false} SelectorBitsIs(b: Layout)
    requires b.Ok()
    ensures |CodeSelectors(b.selector, Identity(|b.len|))| == |b.selector|
    ensures b.SelectorBits() == (BitsOf(|b.len|, 3) + BitsOf(|b.selector|, 15))
      + (AllUnary(CodeSelectors(b.selector, Identity(|b.len|))) + b.CodeBits())
  {
    hide Codes, CodeSelectors, AllUnary, Layout.CodeBits, BitsOf;
  }

  /** From the head of a block, its bits make the machine store the block and stand before
      its output, or refuse it. */
  lemma {:induction false} BlockTaken(b: Layout, size: nat, s: State) returns (s': State)
    requires b.Ok() && s.Valid() && s.at == BlkHdr(1) && s.f.blockSize100k == size
    ensures Came(b, size, s') && Comes(s, b.Bits(), s')
  {
    hide *;
    LayoutParts(b);
    var crc, orig := BytesOf(b.crc, 4), BytesOf(b.origPtr, 3);
    Numbers(b);
    var s1 := HeaderTaken(s, 1);
    var s2 := CrcTaken(s1, 1, crc);
    var s3 := RandTaken(s2, b.randomised);
    var table := RangeBits(b.inUse, 0) + TableBits(b.inUse, 0);
    if b.origPtr > 10 + 100000 * size {
      s' := OrigRefused(s3, 1, orig);
      FarRefused(b, size, s');
      BadAnyway(s3, BitsOfText(orig), s', table + b.SelectorBits());
    } else {
      var s4 := OrigTaken(s3, 1, orig);
      NoRanges(s4, b.inUse);
      var s5 := RangesTaken(s4, b.inUse, 0);
      HeadRead(b, size, s4, s5);
      s' := SelectorPart(b, size, s5);
      ComesAfter(s4, table, s5, b.SelectorBits(), s');
      ComesAfter(s3, BitsOfText(orig), s4, table + b.SelectorBits(), s');
    }
    ComesAfter(s2, [Flag(b.randomised)], s3, BitsOfText(orig) + (table + b.SelectorBits()), s');
    ComesAfter(s1, BitsOfText(crc), s2, [Flag(b.randomised)] + (BitsOfText(orig) + (table + b.SelectorBits())), s');
    ComesAfter(s, BitsOfText(HeaderFrom(1)), s1,
               BitsOfText(crc) + ([Flag(b.randomised)] + (BitsOfText(orig) + (table + b.SelectorBits()))), s');
    BitsIs(b);
  }

  lemma {:induction false} BadAnyway(s: State, a: seq<Bit>, s': State, more: seq<Bit>)
    requires Comes(s, a, s') && s'.at == BadData
    ensures Comes(s, a + more, s')
  {
    hide State.Valid, RunLive;
    forall rest: seq<Bit> ensures RunLive(s, a + more + rest).0 == s' {
      ComesAt(s, a, s', more + rest);
      assert a + (more + rest) == a + more + rest;
    }
  }

  /** A start so far out is none of the rows. */
  lemma {:induction false} FarRefused(b: Layout, size: nat, s': State)
    requires b.Ok() && b.origPtr > 10 + 100000 * size && s'.at == BadData
    ensures Came(b, size, s')
  {
    hide Layout.Ok, Tally;
    BlockFits(b, 100000 * size);
  }

  /** No block is longer than it may be. */
  lemma {:induction false} BlockFits(b: Layout, max: nat)
    requires b.Ok()
    ensures var o := b.Block(max); o.Done? ==> |o.text| <= max
  {
    hide Codes, DecodeFrom;
    TextFits(b.syms, Identity(256), b.Bytes(), [], NoLoss(), max);
  }

  lemma {:induction false} TextFits(syms: seq<nat>, list: Text, bytes: Text, text: Text, lost: Losses, max: nat)
    requires Alphabet(list, bytes) && SymbolsIn(syms, bytes) && |text| <= max
    ensures var o := DecodeFrom(syms, list, bytes, text, lost, max); o.Done? ==> |o.text| <= max
    decreases |syms|
  {
    hide RunValue;
    if syms != [] && syms[0] != |bytes| + 1 {
      if syms[0] <= RUNB {
        var k := LeadingDigits(syms);
        if k < |syms| {
          var es, c := ToInt32(RunValue(syms[..k])), bytes[list[0]];
          if es <= 0 {
            TextFits(syms[k..], list, bytes, text, Lose(lost, c, es), max);
          } else if |text| + es <= max {
            TextFits(syms[k..], list, bytes, text + Repeat(c, es), lost, max);
          }
        }
      } else if |text| < max {
        var n := syms[0] - 1;
        AlphabetKept(list, bytes, n);
        TextFits(syms[1..], ToFront(list, n), bytes, text + [bytes[list[n]]], lost, max);
      }
    }
  }

  lemma {:induction false} Numbers(b: Layout)
    requires b.origPtr < 0x100_0000
    ensures Onto(0, BytesOf(b.crc, 4)) == b.crc && Onto(0, BytesOf(b.origPtr, 3)) == b.origPtr
    ensures Flag(b.randomised) == if b.randomised then 1 else 0
  {
    assert Pow256(1) == 0x100 && Pow256(2) == 0x1_0000 && Pow256(3) == 0x100_0000 && Pow256(4) == 0x1_0000_0000;
    NumberOfBytes(b.crc, 4);
    NumberOfBytes(b.origPtr, 3);
    OntoNumber(0, BytesOf(b.crc, 4));
    OntoNumber(0, BytesOf(b.origPtr, 3));
  }

  lemma {:induction false} NoRanges(s: State, u: InUse)
    requires s.Valid() && s.at == Mapping1
    ensures RangesKnown(s.f, u, 0)
  {
  }

  lemma {:induction false} HeadRead(b: Layout, size: nat, s4: State, s5: State)
    requires s4.f.storedBlockCRC == b.crc && s4.f.randomised == b.randomised && s4.f.origPtr == b.origPtr
    requires s4.f.blockSize100k == size && Mapped(s4.f, b.inUse, s5)
    ensures s5.Valid() && s5.at == Selector1 && s5.f.bytes == b.Bytes() && HeadIs(s5.f, b, size)
  {
    hide State.Valid;
  }

  lemma {:induction false} BitsIs(b: Layout)
    requires b.Ok()
    ensures b.Bits() == BitsOfText(HeaderFrom(1)) + (BitsOfText(BytesOf(b.crc, 4)) + ([Flag(b.randomised)]
      + (BitsOfText(BytesOf(b.origPtr, 3)) + ((RangeBits(b.inUse, 0) + TableBits(b.inUse, 0)) + b.SelectorBits()))))
  {
    hide Codes, BitsOfText, BytesOf, RangeBits, TableBits, Layout.SelectorBits, HeaderFrom, Flag;
  }
}
