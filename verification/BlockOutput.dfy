/** The output side of the block decoder: after the block is inverted it is
    handed out through a caller's buffer of any size, one fetch at a time. */
module BlockOutput {
  import opened Bits
  import opened Permutations
  import opened BwtSpec
  import opened InverseBwt
  import opened RunLength
  import opened Crc
  import opened Randomise

  // ----------------------------------------------------------- what is fetched

  function Min(a: nat, b: nat): nat {
    if a <= b then a else b
  }

  /** Everything that determines the bytes a block will deliver. */
  datatype Feed = Feed(last: Text, back: seq<nat>, orig: nat, randomised: bool, rNums: RandNums) {
    ghost predicate Valid() {
      |back| == |last| && InRange(back) && orig < |last|
    }

    ghost function Spot(k: nat): nat
      requires Valid()
    {
      Iter(back, orig, k)
    }

    /** The k-th byte fetched, unmasked if the block was randomised. */
    ghost function At(k: nat): Byte
      requires Valid()
    {
      var c := last[Spot(k + 1)];
      if randomised && Toggled(rNums, k) then Toggle(c) else c
    }

    ghost function Block(): (b: Text)
      requires Valid()
      ensures |b| == |last| && forall k :: 0 <= k < |b| ==> b[k] == At(k)
    {
      seq(|last|, k requires 0 <= k < |last| => At(k))
    }

    // A run starts at fetch u when its first byte is the last of u bytes fetched.

    /** The run that starts at u has ended when v bytes have been fetched. */
    ghost predicate Breaks(u: nat, v: nat)
      requires Valid() && 1 <= u <= v
    {
      v == |last| + 1 || At(v - 1) != At(u - 1)
    }

    /** How many bytes of it are fetched as such. */
    ghost function Alike(u: nat): (n: nat)
      requires Valid() && u >= 1
      ensures 1 <= n <= 4
    {
      if Breaks(u, u + 1) then 1 else if Breaks(u, u + 2) then 2 else if Breaks(u, u + 3) then 3 else 4
    }

    /** Where the next one starts: the fourth is followed by a count. */
    ghost function Next(u: nat): (v: nat)
      requires Valid() && u >= 1
      ensures u < v
    {
      if Alike(u) < 4 then u + Alike(u) else u + 5
    }

    ghost function Length(u: nat): (n: nat)
      requires Valid() && u >= 1
      ensures n >= 1
    {
      if Alike(u) < 4 then Alike(u) else (var more: int := At(u + 3); more + 4)
    }

    /** What the first m runs from u on stand for, up to the end of the block. */
    ghost function Bytes(u: nat, m: nat): (s: Text)
      requires Valid() && u >= 1
      decreases m
    {
      if m == 0 || u == |last| + 1 then [] else Repeat(At(u - 1), Length(u)) + Bytes(Next(u), m - 1)
    }

    /** The block ends within m runs. */
    ghost predicate Ends(u: nat, m: nat)
      requires Valid() && u >= 1
      decreases m
    {
      u == |last| + 1 || (m > 0 && Ends(Next(u), m - 1))
    }

    lemma {:induction false} BytesNone(u: nat, m: nat)
      requires Valid() && u == |last| + 1
      ensures Bytes(u, m) == [] && Ends(u, m)
    {
    }

    lemma {:induction false} BytesSome(u: nat, m: nat)
      requires Valid() && 1 <= u != |last| + 1 && m > 0
      ensures Bytes(u, m) == Repeat(At(u - 1), Length(u)) + Bytes(Next(u), m - 1)
      ensures Ends(u, m) == Ends(Next(u), m - 1)
    {
    }

    /** Each run has a byte at least. */
    lemma {:induction false} BytesLong(u: nat, m: nat)
      requires Valid() && u >= 1
      ensures |Bytes(u, m)| >= m || Ends(u, m)
      decreases m
    {
      hide Alike, Next, Length;
      if m != 0 && u != |last| + 1 {
        BytesLong(Next(u), m - 1);
      }
    }

    /** More runs only add to what fewer stand for. */
    lemma {:induction false} BytesPrefix(u: nat, m: nat, n: nat)
      requires Valid() && u >= 1 && m <= n
      ensures Bytes(u, m) <= Bytes(u, n)
      ensures Ends(u, m) ==> Bytes(u, m) == Bytes(u, n) && Ends(u, n)
      decreases m
    {
      hide Alike, Next, Length;
      if m != 0 && u != |last| + 1 {
        BytesPrefix(Next(u), m - 1, n - 1);
      }
    }

    // ------------------------------------------ what that is of a good block

    /** A run that starts inside a block is fetched as RunLength would read it. */
    lemma {:induction false} AlikeIs(u: nat)
      requires Valid() && 1 <= u <= |last|
      ensures var r := Block()[u - 1..];
        && Alike(u) == RunAt(r, 4) && r[0] == At(u - 1) && Next(u) == u + RunFetches(r)
        && (forall i :: 0 <= i < Alike(u) ==> r[i] == r[0])
        && (Alike(u) == |r| || (Alike(u) < 4 ==> r[Alike(u)] != r[0]))
    {
      var r := Block()[u - 1..];
      forall i | 0 <= i < |r| ensures r[i] == At(u - 1 + i) {
        assert r[i] == Block()[u - 1 + i];
      }
      RunAtIs(r, Alike(u));
    }

    /** A block whose runs are well formed ends, and stands for what decoding it in
        one go gives. */
    lemma {:induction false} BytesExpand(u: nat, m: nat)
      requires Valid() && 1 <= u <= |last| + 1 && m >= |last| + 1 - u && WellFormed(Block()[u - 1..])
      ensures Ends(u, m) && Bytes(u, m) == Expand(Block()[u - 1..])
      decreases |last| + 1 - u
    {
      hide *;
      if u == |last| + 1 {
        ExpandNone();
        BytesNone(u, m);
        assert Block()[u - 1..] == [];
      } else {
        ExpandStep(u);
        BytesExpand(Next(u), m - 1);
        BytesSome(u, m);
      }
    }

    lemma {:induction false} ExpandStep(u: nat)
      requires Valid() && 1 <= u <= |last| && WellFormed(Block()[u - 1..])
      ensures Next(u) <= |last| + 1 && WellFormed(Block()[Next(u) - 1..])
      ensures Expand(Block()[u - 1..]) == Repeat(At(u - 1), Length(u)) + Expand(Block()[Next(u) - 1..])
    {
      hide Expand, WellFormed, Alike, At, Block;
      var r := Block()[u - 1..];
      AlikeIs(u);
      if Alike(u) < 4 {
        ShortRun(r, Alike(u));
        DropDrop(Block(), u - 1, Alike(u));
      } else {
        LongRun(r);
        DropDrop(Block(), u - 1, 5);
        assert r[4] == Block()[u + 3] == At(u + 3);
      }
    }

    /** The first n bytes of what head and the runs from u on stand for, or as many as
        there are. */
    ghost function Due(head: Text, u: nat, n: nat): (s: Text)
      requires Valid() && u >= 1
      ensures |s| <= n
    {
      var o := head + Bytes(u, n + 1);
      o[..Min(n, |o|)]
    }

    /** Any number of runs that gives enough bytes gives these. */
    lemma {:induction false} DueAny(head: Text, u: nat, m: nat, n: nat)
      requires Valid() && u >= 1 && (Ends(u, m) || |head| + |Bytes(u, m)| >= n)
      ensures var o := head + Bytes(u, m); Due(head, u, n) == o[..Min(n, |o|)]
    {
      hide Bytes, Ends;
      if m <= n + 1 {
        BytesPrefix(u, m, n + 1);
      } else {
        BytesPrefix(u, n + 1, m);
        BytesLong(u, n + 1);
      }
    }

    /** And only such a block ends. */
    lemma {:induction false} EndsStops(u: nat, m: nat)
      requires Valid() && 1 <= u && Ends(u, m)
      ensures u <= |last| + 1 && StopsAtEnd(Block(), u)
      decreases m
    {
      hide Alike, Next, Block, RunFetches;
      if u != |last| + 1 {
        EndsStops(Next(u), m - 1);
        AlikeIs(u);
      }
    }

    /** The end of a block is met if and only if its runs are well formed. */
    lemma {:induction false} EndsIffWellFormed(u: nat)
      requires Valid() && 1 <= u <= |last| + 1
      ensures (exists m: nat :: Ends(u, m)) <==> WellFormed(Block()[u - 1..])
    {
      hide Ends, WellFormed, StopsAtEnd, Block;
      if m: nat :| Ends(u, m) {
        EndsStops(u, m);
        StopsIffWellFormed(Block(), u);
      } else if WellFormed(Block()[u - 1..]) {
        BytesExpand(u, |last| + 1 - u);
      }
    }

    /** What a whole block delivers: the bytes it stands for if its runs are well
        formed, and otherwise bytes without end. */
    lemma {:induction false} Delivers(n: nat)
      requires Valid()
      ensures WellFormed(Block()) ==> Due([], 1, n) == Expand(Block())[..Min(n, |Expand(Block())|)]
      ensures !WellFormed(Block()) ==> |Due([], 1, n)| == n
    {
      hide Bytes, Ends, Due, WellFormed, Expand, Block;
      assert Block()[0..] == Block();
      if WellFormed(Block()) {
        BytesExpand(1, |last|);
        DueAny([], 1, |last|, n);
        assert [] + Bytes(1, |last|) == Expand(Block());
      } else {
        EndsIffWellFormed(1);
        BytesLong(1, n);
        DueAny([], 1, n, n);
        assert |[] + Bytes(1, n)| == |Bytes(1, n)|;
      }
    }

    /** Four equal bytes and no count: the block that is nothing else never ends, and
        delivers that byte for ever. */
    lemma {:induction false} CountMissing(c: Byte, n: nat)
      requires Valid() && last == [c, c, c, c] && !randomised
      ensures !WellFormed(Block()) && Due([], 1, n) == Repeat(c, n)
    {
      hide Bytes, Due;
      NoCount(c);
      OnlyByte(c, 1, n);
      assert Block()[0..] == Block();
      EndsIffWellFormed(1);
      BytesLong(1, n);
      DueAny([], 1, n, n);
      assert |Bytes(1, n)[..n]| == n && [] + Bytes(1, n) == Bytes(1, n);
    }

    lemma {:induction false} NoCount(c: Byte)
      requires Valid() && last == [c, c, c, c] && !randomised
      ensures !WellFormed(Block())
    {
      assert FourEqual(Block());
    }

    lemma {:induction false} OnlyByte(c: Byte, u: nat, m: nat)
      requires Valid() && u >= 1 && last == [c, c, c, c] && !randomised
      ensures forall i :: 0 <= i < |Bytes(u, m)| ==> Bytes(u, m)[i] == c
      decreases m
    {
      hide Alike, Next, Length;
      if m != 0 && u != |last| + 1 {
        OnlyByte(c, Next(u), m - 1);
      }
    }
  }

  /** An inverted block: the contents of the arrays that hold it, and the feed
      they deliver. ring is the cycle that SMALL walks on. */
  datatype Inverted = Inverted(small: bool, words: seq<nat>, links: seq<nat>, starts: seq<int>,
                               ring: set<nat>, feed: Feed) {
    ghost predicate Sound() {
      && feed.Valid()
      && if small then FirstColumn(starts, feed.last, feed.back) && SmallReady(links, feed.back, ring)
         else FastReady(words, feed.last, feed.back)
    }

    /** A walk at pos with mask state rnd has made k fetches; FAST has already
        followed the link of the byte it fetches next. */
    ghost predicate Stands(pos: nat, rnd: Rand, k: nat)
      requires feed.Valid()
    {
      && pos == feed.Spot(if small then k else k + 1)
      && (small ==> pos in ring)
      && (feed.randomised ==> rnd == RandAfter(feed.rNums, k))
    }
  }

  type Source = s: Inverted | s.Sound()
    ghost witness Inverted(false, [0], [], [], {}, Feed([0], [0], 0, false, seq(512, _ => 2)))

  // -------------------------------------------------------- what is still owed

  lemma {:induction false} DropDrop(s: Text, a: nat, b: nat)
    requires a + b <= |s|
    ensures s[a..][b..] == s[a + b..]
  {
  }

  /** Where a delivery started: what was owed, written, free and checksummed. */
  datatype Ledger = Ledger(owed: Text, written: Text, avail: nat, crc: Word) {
    /** count bytes later. */
    ghost predicate After(table: CrcTable, count: nat, written': Text, avail': nat, crc': Word, owed': Text) {
      && count <= |owed| && avail' + count == avail
      && written' == written + owed[..count] && owed' == owed[count..]
      && crc' == CrcOf(table, crc, owed[..count])
    }
  }

  /** As much as fits has been delivered. */
  ghost predicate Delivered(l: Ledger, table: CrcTable, written': Text, avail': nat, crc': Word, owed': Text) {
    l.After(table, if l.avail <= |l.owed| then l.avail else |l.owed|, written', avail', crc', owed')
  }

  lemma {:induction false} LedgerStart(l: Ledger, table: CrcTable)
    ensures l.After(table, 0, l.written, l.avail, l.crc, l.owed)
  {
  }

  /** n bytes of the open run go out. */
  lemma {:induction false} LedgerRun(l: Ledger, table: CrcTable, count: nat, w: Text, a: nat, c: Word,
                                     ch: Byte, len: nat, tail: Text, n: nat)
    requires l.After(table, count, w, a, c, Repeat(ch, len) + tail) && n <= len && n <= a
    ensures l.After(table, count + n, w + Repeat(ch, n), a - n, CrcOf(table, c, Repeat(ch, n)),
                    Repeat(ch, len - n) + tail)
  {
    hide CrcOf;
    assert Repeat(ch, len)[..n] == Repeat(ch, n) && Repeat(ch, len)[n..] == Repeat(ch, len - n);
    TakeMore(l.owed, count, Repeat(ch, len), tail, n);
    CrcAppend(table, l.crc, l.owed[..count], Repeat(ch, n));
  }

  lemma {:induction false} TakeMore(o: Text, count: nat, run: Text, tail: Text, n: nat)
    requires count <= |o| && o[count..] == run + tail && n <= |run|
    ensures count + n <= |o| && o[..count + n] == o[..count] + run[..n] && o[count + n..] == run[n..] + tail
  {
    assert o == o[..count] + run + tail;
  }

  lemma {:induction false} LedgerFull(l: Ledger, table: CrcTable, count: nat, w: Text, a: nat, c: Word, o: Text)
    requires l.After(table, count, w, a, c, o) && (a == 0 || o == [])
    ensures Delivered(l, table, w, a, c, o)
  {
  }

  lemma {:induction false} RepeatNext(ch: Byte, n: nat)
    ensures Repeat(ch, n + 1) == Repeat(ch, n) + [ch]
  {
  }

  function Total(sizes: seq<nat>): nat {
    if sizes == [] then 0 else Total(sizes[..|sizes| - 1]) + sizes[|sizes| - 1]
  }

  lemma {:induction false} TotalNone(sizes: seq<nat>)
    ensures Total(sizes[..0]) == 0
  {
  }

  lemma {:induction false} TotalPart(sizes: seq<nat>, i: nat)
    requires i <= |sizes|
    ensures Total(sizes[..i]) <= Total(sizes)
    decreases |sizes| - i
  {
    if i == |sizes| {
      assert sizes[..i] == sizes;
    } else {
      TotalNext(sizes, i);
      TotalPart(sizes, i + 1);
    }
  }

  lemma {:induction false} TotalNext(sizes: seq<nat>, i: nat)
    requires i < |sizes|
    ensures Total(sizes[..i + 1]) == Total(sizes[..i]) + sizes[i]
  {
    assert sizes[..i + 1][..i] == sizes[..i];
  }

  /** total bytes of room have been offered since o, w, c. */
  ghost predicate Offered(o: Text, w: Text, c: Word, table: CrcTable, total: nat, w': Text, c': Word, o': Text) {
    var k := Min(total, |o|);
    w' == w + o[..k] && o' == o[k..] && c' == CrcOf(table, c, o[..k])
  }

  lemma {:induction false} OfferedNone(o: Text, w: Text, c: Word, table: CrcTable)
    ensures Offered(o, w, c, table, 0, w, c, o)
  {
  }

  lemma {:induction false} OfferedDone(o: Text, w: Text, c: Word, table: CrcTable, total: nat, w': Text, c': Word, o': Text)
    requires Offered(o, w, c, table, total, w', c', o')
    ensures o' == [] <==> total >= |o|
  {
  }

  /** Delivering into n more bytes of room continues where it stopped. */
  lemma {:induction false} OfferedMore(o: Text, w: Text, c: Word, table: CrcTable, total: nat, w1: Text, c1: Word, o1: Text,
                                       n: nat, w2: Text, a2: nat, c2: Word, o2: Text)
    requires Offered(o, w, c, table, total, w1, c1, o1)
    requires Delivered(Ledger(o1, w1, n, c1), table, w2, a2, c2, o2)
    ensures Offered(o, w, c, table, total + n, w2, c2, o2)
  {
    hide CrcOf, UpdateCrc;
    var k := Min(total, |o|);
    var j := Min(n, |o1|);
    assert Min(total + n, |o|) == k + j;
    assert o[k..] == o1 + [];
    TakeMore(o, k, o1, [], j);
    CrcAppend(table, c, o[..k], o1[..j]);
  }

  /** Without randomisation the block fetched is the text transformed. */
  lemma {:induction false} BlockIsText(f: Feed, s: Text)
    requires IsTransform(s, f.last, f.orig) && f.back == Back(f.last) && !f.randomised
    ensures f.Valid() && f.Block() == s
  {
    forall k | 0 <= k < |s| ensures f.Block()[k] == s[k] {
      WalkRecovers(s, f.last, f.orig, k);
    }
  }

  /** A run just read: its byte and length, and where reading stopped. */
  datatype Run = Run(ch: Byte, len: nat, k0: Byte, pos: nat, rnd: Rand, used: nat)

  /** The part of the decoder's state that inverts and delivers one block.
      written collects the bytes stored through the caller's pointer. */
  class DState {
    const small: bool
    const rNums: RandNums
    const crcTable: CrcTable
    const tt: array<nat>
    const ll: PackedLinks
    const cftab: array<int>
    const cftabCopy: array<int>
    const unzftab: array<int>

    var blockRandomised: bool
    var tPos: nat
    var k0: Byte
    var nblockUsed: nat
    var saveNblock: nat
    var stateOutCh: Byte
    var stateOutLen: nat
    var rand: Rand
    var calculatedBlockCRC: Word
    var written: Text
    var availOut: nat

    ghost var source: Source

    constructor (smallDecompress: bool, blockSize: nat, rNums: RandNums, crcTable: CrcTable)
      ensures small == smallDecompress && this.rNums == rNums && this.crcTable == crcTable
      ensures fresh(tt) && fresh(ll) && fresh(ll.ll16) && fresh(ll.ll4) && fresh(cftab) && fresh(cftabCopy)
      ensures fresh(unzftab) && Shaped() && ll.Valid() && tt.Length == ll.ll16.Length == blockSize
      ensures tt != ll.ll16 && tt != ll.ll4 && ll.ll16 != ll.ll4 && written == []
    {
      small := smallDecompress;
      this.rNums := rNums;
      this.crcTable := crcTable;
      tt := new nat[blockSize](_ => 0);
      ll := new PackedLinks(blockSize);
      cftab := new int[257](_ => 0);
      cftabCopy := new int[257](_ => 0);
      unzftab := new int[256](_ => 0);
      written := [];
    }

    ghost predicate Shaped() {
      && cftab.Length == cftabCopy.Length == 257 && unzftab.Length == 256
      && cftab != cftabCopy && cftab != unzftab && cftabCopy != unzftab
    }

    /** The arrays hold the inverted block and the mode fields agree with it. */
    ghost predicate Serves()
      reads `blockRandomised, `saveNblock, `source, tt, ll.ll16, ll.ll4, cftab
      ensures Serves() ==> source.feed.Valid() && saveNblock == |source.feed.last|
    {
      && Holds(source)
      && source.feed.randomised == blockRandomised && source.feed.rNums == rNums
      && saveNblock == |source.feed.last|
    }

    ghost predicate Holds(s: Source)
      reads tt, ll.ll16, ll.ll4, cftab
    {
      && small == s.small
      && if small then ll.Valid() && ll.Links() == s.links && cftab[..] == s.starts else tt[..] == s.words
    }

    ghost predicate Valid()
      reads `blockRandomised, `saveNblock, `source, tt, ll.ll16, ll.ll4, cftab
      reads `tPos, `k0, `nblockUsed, `rand
      ensures Valid() ==> source.feed.Valid() && nblockUsed >= 1 && saveNblock == |source.feed.last|
    {
      Serves() && Cached(k0, tPos, nblockUsed)
    }

    /** used bytes have been fetched, the last of them k and the next at pos. */
    ghost predicate Cached(k: Byte, pos: nat, used: nat)
      reads `source, `rand
    {
      && used >= 1 && source.Stands(pos, rand, used)
      && (used != |source.feed.last| + 1 ==> k == source.feed.At(used - 1))
    }

    /** What the open run and m more stand for. */
    ghost function Pending(m: nat): Text
      requires source.feed.Valid() && nblockUsed >= 1
      reads `stateOutCh, `stateOutLen, `source, `nblockUsed
    {
      Repeat(stateOutCh, stateOutLen) + source.feed.Bytes(nblockUsed, m)
    }

    /** BZ_GET_FAST or BZ_GET_SMALL, unmasked when the block is randomised. */
    method Fetch(pos: nat, rnd: Rand, ghost k: nat) returns (c: Byte, pos': nat, rnd': Rand)
      requires Serves() && source.Stands(pos, rnd, k)
      ensures source.Stands(pos', rnd', k + 1) && c == source.feed.At(k)
    {
      ghost var f := source.feed;
      if small {
        c, pos' := GetSmall(ll, cftab, pos, f.last, f.back, source.ring);
      } else {
        c, pos' := GetFast(tt, pos, f.last, f.back);
      }
      rnd' := rnd;
      if blockRandomised {
        rnd' := NextRand(rNums, rnd);
        MaskToggles(rNums, k, c);
        c := Mask(rnd', c);
      }
    }

    /** Fetch one byte after a run of r.len; stop at the block end or on a
        different byte, which then starts the next run. */
    method Another(r: Run, ghost u: nat) returns (r': Run, ended: bool)
      requires Serves() && source.Stands(r.pos, r.rnd, r.used) && 1 <= u <= r.used && r.k0 == source.feed.At(u - 1)
      ensures source.Stands(r'.pos, r'.rnd, r'.used) && r'.used == r.used + 1
      ensures r'.ch == r.ch && r'.len == r.len
      ensures ended <==> source.feed.Breaks(u, r'.used)
      ensures r'.used != saveNblock + 1 ==> r'.k0 == source.feed.At(r'.used - 1)
      ensures !ended ==> r'.k0 == r.k0
    {
      hide Feed.At, Inverted.Stands, DState.Holds, RandAfter, Iter, Inverted.Sound;
      var k1, pos, rnd := Fetch(r.pos, r.rnd, r.used);
      r' := r.(pos := pos, rnd := rnd, used := r.used + 1);
      if r'.used == saveNblock + 1 { return r', true; }
      if k1 != r.k0 { return r'.(k0 := k1), true; }
      ended := false;
    }

    /** The same for the first byte as the FAST routine orders it: a different
        byte is stored in k0 before the block end is looked for. */
    method SecondFast(r: Run, ghost u: nat) returns (r': Run, ended: bool)
      requires Serves() && source.Stands(r.pos, r.rnd, r.used) && 1 <= u <= r.used && r.k0 == source.feed.At(u - 1)
      ensures source.Stands(r'.pos, r'.rnd, r'.used) && r'.used == r.used + 1
      ensures r'.ch == r.ch && r'.len == r.len
      ensures ended <==> source.feed.Breaks(u, r'.used)
      ensures r'.used != saveNblock + 1 ==> r'.k0 == source.feed.At(r'.used - 1)
      ensures !ended ==> r'.k0 == r.k0
    {
      hide Feed.At, Inverted.Stands, DState.Holds, RandAfter, Iter, Inverted.Sound;
      var k1, pos, rnd := Fetch(r.pos, r.rnd, r.used);
      r' := r.(pos := pos, rnd := rnd, used := r.used + 1);
      if k1 != r.k0 { return r'.(k0 := k1), true; }
      ended := r'.used == saveNblock + 1;
    }

    /** r is the run that starts at fetch u, and where reading it stopped. */
    ghost predicate Started(u: nat, r: Run)
      reads `source
    {
      && u >= 1 && source.Stands(r.pos, r.rnd, r.used)
      && r.ch == source.feed.At(u - 1) && r.len == source.feed.Length(u) && r.used == source.feed.Next(u)
      && (r.used != |source.feed.last| + 1 ==> r.k0 == source.feed.At(r.used - 1))
    }

    /** Start a run at s.k0: the part of unRLE_obuf_to_output between "can a new
        run be started?" and the jump back to emptying it. */
    method ReadRun(s: Run, fast: bool) returns (r: Run)
      requires Serves() && source.Stands(s.pos, s.rnd, s.used) && s.used >= 1 && s.k0 == source.feed.At(s.used - 1)
      ensures Started(s.used, r)
    {
      hide *;
      ghost var u := s.used;
      Serving();
      var ended;
      r := s.(ch := s.k0, len := 1);
      if fast {
        r, ended := SecondFast(r, u);
      } else {
        r, ended := Another(r, u);
      }
      if !ended {
        r, ended := ReadTwo(r, u);
      }
      if ended {
        StartedShort(u, r);
      } else {
        r := ReadCount(r, u);
      }
    }

    lemma {:induction false} Serving()
      requires Serves()
      ensures source.feed.Valid() && saveNblock == |source.feed.last| && source.feed.randomised == blockRandomised
    {
    }

    lemma {:induction false} StartedShort(u: nat, r: Run)
      requires source.Stands(r.pos, r.rnd, r.used) && 1 <= u && 1 <= r.len <= 3 && r.used == u + r.len
      requires r.ch == source.feed.At(u - 1) && source.feed.Breaks(u, r.used)
      requires forall v :: u < v < r.used ==> !source.feed.Breaks(u, v)
      requires r.used != |source.feed.last| + 1 ==> r.k0 == source.feed.At(r.used - 1)
      ensures Started(u, r)
    {
      hide Feed.At, Feed.Breaks, Inverted.Stands, Inverted.Sound;
    }

    /** The third and fourth bytes of a run whose first two are equal. */
    method ReadTwo(s: Run, ghost u: nat) returns (r: Run, ended: bool)
      requires Serves() && source.Stands(s.pos, s.rnd, s.used) && 1 <= u && s.used == u + 1
      requires s.k0 == source.feed.At(u - 1)
      ensures source.Stands(r.pos, r.rnd, r.used) && r.used == u + r.len && 2 <= r.len <= 3 && r.ch == s.ch
      ensures forall v :: u + 1 < v < r.used ==> !source.feed.Breaks(u, v)
      ensures r.used != saveNblock + 1 ==> r.k0 == source.feed.At(r.used - 1)
      ensures ended <==> source.feed.Breaks(u, r.used)
      ensures !ended ==> r.len == 3
    {
      hide *;
      r, ended := Another(s.(len := 2), u);
      if ended { return; }
      r, ended := Another(r.(len := 3), u);
    }

    /** The count after four equal bytes, and the byte that starts the next run. */
    method ReadCount(r: Run, ghost u: nat) returns (r': Run)
      requires Serves() && source.Stands(r.pos, r.rnd, r.used) && 1 <= u && r.used == u + 3
      requires r.ch == source.feed.At(u - 1) && forall v :: u < v <= u + 3 ==> !source.feed.Breaks(u, v)
      ensures Started(u, r')
    {
      hide Feed.At, Feed.Breaks, Inverted.Stands, DState.Holds, RandAfter, Iter, Inverted.Sound;
      var k1, pos, rnd := Fetch(r.pos, r.rnd, r.used);
      var k;
      k, pos, rnd := Fetch(pos, rnd, r.used + 1);
      r' := Run(r.ch, 4 + k1 as int, k, pos, rnd, r.used + 2);
      assert !source.feed.Breaks(u, u + 1) && !source.feed.Breaks(u, u + 2) && !source.feed.Breaks(u, u + 3);
    }

    /** The state as a ledger. */
    ghost function Account(m: nat): Ledger
      requires source.feed.Valid() && nblockUsed >= 1
      reads this
    {
      Ledger(Pending(m), written, availOut, calculatedBlockCRC)
    }

    /** "try to finish existing run" */
    method EmptyRun() returns (ghost n: nat)
      modifies `written, `availOut, `stateOutLen, `calculatedBlockCRC
      ensures availOut == 0 || stateOutLen == 0
      ensures n <= old(stateOutLen) && n <= old(availOut)
      ensures stateOutLen == old(stateOutLen) - n && availOut == old(availOut) - n
      ensures written == old(written) + Repeat(stateOutCh, n)
      ensures calculatedBlockCRC == CrcOf(crcTable, old(calculatedBlockCRC), Repeat(stateOutCh, n))
    {
      n := 0;
      while availOut != 0 && stateOutLen != 0
        invariant n <= old(stateOutLen) && n <= old(availOut)
        invariant stateOutLen == old(stateOutLen) - n && availOut == old(availOut) - n
        invariant written == old(written) + Repeat(stateOutCh, n)
        invariant calculatedBlockCRC == CrcOf(crcTable, old(calculatedBlockCRC), Repeat(stateOutCh, n))
        decreases stateOutLen
      {
        RepeatNext(stateOutCh, n);
        CrcNext(crcTable, old(calculatedBlockCRC), Repeat(stateOutCh, n), stateOutCh);
        written := written + [stateOutCh];
        calculatedBlockCRC := UpdateCrc(crcTable, calculatedBlockCRC, stateOutCh);
        stateOutLen := stateOutLen - 1;
        availOut := availOut - 1;
        n := n + 1;
      }
    }

    /** Start a run, the last one being empty. */
    method StartRun(ghost m: nat)
      requires Valid() && nblockUsed != saveNblock + 1 && stateOutLen == 0 && m > 0
      modifies `stateOutLen, `stateOutCh, `k0, `tPos, `nblockUsed, `rand
      ensures Valid() && Pending(m - 1) == old(Pending(m))
      ensures source.feed.Ends(nblockUsed, m - 1) == old(source.feed.Ends(nblockUsed, m))
    {
      hide *;
      ValidParts();
      PendingIs(m);
      ghost var ch, u := stateOutCh, nblockUsed;
      var r := ReadRun(Run(k0, 1, k0, tPos, rand, nblockUsed), false);
      StartedBytes(u, r, m, ch);
      stateOutCh, stateOutLen, k0, tPos, rand, nblockUsed := r.ch, r.len, r.k0, r.pos, r.rnd, r.used;
      StartedValid(u, r);
      PendingIs(m - 1);
    }

    lemma {:induction false} ValidParts()
      requires Valid()
      ensures Serves() && source.Stands(tPos, rand, nblockUsed) && Cached(k0, tPos, nblockUsed)
      ensures nblockUsed != saveNblock + 1 ==> k0 == source.feed.At(nblockUsed - 1)
    {
    }

    lemma {:induction false} StartedValid(u: nat, r: Run)
      requires Started(u, r) && Serves() && k0 == r.k0 && tPos == r.pos && rand == r.rnd && nblockUsed == r.used
      ensures Valid()
    {
      hide Feed.At, Inverted.Stands, Feed.Next, Feed.Length;
    }

    /** The run read is the first of those that were to come. */
    lemma {:induction false} StartedBytes(u: nat, r: Run, m: nat, ch: Byte)
      requires Started(u, r) && u != |source.feed.last| + 1 && m > 0
      ensures r.len > 0 && r.used >= 1
      ensures Repeat(ch, 0) + source.feed.Bytes(u, m) == Repeat(r.ch, r.len) + source.feed.Bytes(r.used, m - 1)
      ensures source.feed.Ends(u, m) == source.feed.Ends(r.used, m - 1)
    {
      hide Feed.Bytes, Feed.Ends, Feed.At, Inverted.Stands, Feed.Alike;
      source.feed.BytesSome(u, m);
      assert Repeat(ch, 0) + source.feed.Bytes(u, m) == source.feed.Bytes(u, m);
    }

    lemma {:induction false} PendingIs(m: nat)
      requires source.feed.Valid() && nblockUsed >= 1
      ensures Pending(m) == Repeat(stateOutCh, stateOutLen) + source.feed.Bytes(nblockUsed, m)
      ensures Account(m) == Ledger(Pending(m), written, availOut, calculatedBlockCRC)
    {
    }

    /** m runs are enough to fill the buffer, or else they end the block. */
    ghost predicate Enough(m: nat)
      requires source.feed.Valid() && nblockUsed >= 1
      reads this
    {
      source.feed.Ends(nblockUsed, m) || |Pending(m)| > availOut
    }

    lemma {:induction false} EnoughIs(m: nat)
      requires source.feed.Valid() && nblockUsed >= 1
      ensures Enough(m) <==> source.feed.Ends(nblockUsed, m) || |Account(m).owed| > Account(m).avail
    {
    }

    /** So there is one more to start while the block has not ended. */
    lemma {:induction false} MoreRuns(l: Ledger, count: nat, w: Text, a: nat, c: Word, ch: Byte, used: nat, m: nat)
      requires source.feed.Valid() && 1 <= used != |source.feed.last| + 1
      requires l.After(crcTable, count, w, a, c, Repeat(ch, 0) + source.feed.Bytes(used, m))
      requires source.feed.Ends(used, m) || |l.owed| > l.avail
      ensures m > 0
    {
      hide CrcOf;
    }

    lemma {:induction false} BlockDone(ch: Byte, used: nat, m: nat)
      requires source.feed.Valid() && used == |source.feed.last| + 1
      ensures Repeat(ch, 0) + source.feed.Bytes(used, m) == []
    {
    }

    /** unRLE_obuf_to_output_SMALL, and the randomised half of _FAST. */
    method Deliver(ghost m0: nat) returns (ghost m: nat)
      requires Valid() && Enough(m0)
      modifies `written, `availOut, `stateOutLen, `stateOutCh, `calculatedBlockCRC
      modifies `k0, `tPos, `nblockUsed, `rand
      ensures Valid()
      ensures Delivered(old(Account(m0)), crcTable, written, availOut, calculatedBlockCRC, Pending(m))
      ensures source.feed.Ends(nblockUsed, m) == old(source.feed.Ends(nblockUsed, m0))
    {
      hide *;
      m := m0;
      ghost var l, count, ends := Account(m), 0, source.feed.Ends(nblockUsed, m);
      LedgerStart(l, crcTable);
      PendingIs(m);
      EnoughIs(m);
      while true
        invariant Valid() && source.feed.Ends(nblockUsed, m) == ends && (ends || |l.owed| > l.avail)
        invariant l.After(crcTable, count, written, availOut, calculatedBlockCRC, Pending(m))
        decreases m
      {
        PendingIs(m);
        ghost var w, a, c, len := written, availOut, calculatedBlockCRC, stateOutLen;
        ghost var n := EmptyRun();
        LedgerRun(l, crcTable, count, w, a, c, stateOutCh, len, source.feed.Bytes(nblockUsed, m), n);
        count := count + n;
        PendingIs(m);
        if availOut == 0 || nblockUsed == saveNblock + 1 {
          if availOut != 0 { BlockDone(stateOutCh, nblockUsed, m); }
          LedgerFull(l, crcTable, count, written, availOut, calculatedBlockCRC, Pending(m));
          return;
        }
        MoreRuns(l, count, written, availOut, calculatedBlockCRC, stateOutCh, nblockUsed, m);
        StartRun(m);
        m := m - 1;
      }
    }

    /** The loop of the FAST routine that writes all but the last byte of the
        open run, on its cached copies. */
    method EmptyRunButOne(ch: Byte, len0: nat, w0: Text, a0: nat, c0: Word)
      returns (len: nat, w: Text, a: nat, c: Word, ghost n: nat)
      requires len0 > 0
      ensures n < len0 && n <= a0 && len == len0 - n && a == a0 - n && (a == 0 || len == 1)
      ensures w == w0 + Repeat(ch, n) && c == CrcOf(crcTable, c0, Repeat(ch, n))
    {
      len, w, a, c, n := len0, w0, a0, c0, 0;
      while a != 0 && len != 1
        invariant n < len0 && n <= a0 && len == len0 - n && a == a0 - n
        invariant w == w0 + Repeat(ch, n) && c == CrcOf(crcTable, c0, Repeat(ch, n))
        decreases len
      {
        RepeatNext(ch, n);
        CrcNext(crcTable, c0, Repeat(ch, n), ch);
        w := w + [ch];
        c := UpdateCrc(crcTable, c, ch);
        len := len - 1;
        a := a - 1;
        n := n + 1;
      }
    }

    lemma {:induction false} LedgerOne(l: Ledger, count: nat, w: Text, a: nat, c: Word, ch: Byte, tail: Text)
      requires l.After(crcTable, count, w, a, c, Repeat(ch, 1) + tail) && a > 0
      ensures l.After(crcTable, count + 1, w + [ch], a - 1, UpdateCrc(crcTable, c, ch), Repeat(ch, 0) + tail)
    {
      LedgerRun(l, crcTable, count, w, a, c, ch, 1, tail, 1);
      assert Repeat(ch, 1) == [ch];
      assert CrcOf(crcTable, c, [ch]) == UpdateCrc(crcTable, c, ch) by { CrcNext(crcTable, c, [], ch); assert [] + [ch] == [ch]; }
    }

    lemma {:induction false} StartedCached(u: nat, r: Run)
      requires Started(u, r) && !source.feed.randomised
      ensures Cached(r.k0, r.pos, r.used)
    {
      hide Feed.At, Feed.Next, Feed.Length;
    }

    lemma {:induction false} CachedParts(k: Byte, pos: nat, used: nat)
      requires Serves() && Cached(k, pos, used)
      ensures used >= 1 && source.Stands(pos, rand, used) && source.feed.randomised == blockRandomised
      ensures used != saveNblock + 1 ==> k == source.feed.At(used - 1)
    {
    }

    /** unRLE_obuf_to_output_FAST without randomisation: it works on cached
        copies, and jumps straight to writing a run of length one. */
    method DeliverFast(ghost m0: nat) returns (ghost m: nat)
      requires Valid() && !small && !blockRandomised && Enough(m0)
      modifies `written, `availOut, `stateOutLen, `stateOutCh, `calculatedBlockCRC
      modifies `k0, `tPos, `nblockUsed, `rand
      ensures Valid()
      ensures Delivered(old(Account(m0)), crcTable, written, availOut, calculatedBlockCRC, Pending(m))
      ensures source.feed.Ends(nblockUsed, m) == old(source.feed.Ends(nblockUsed, m0))
    {
      hide *;
      m := m0;
      ghost var l, count, ends := Account(m), 0, source.feed.Ends(nblockUsed, m);
      LedgerStart(l, crcTable);
      PendingIs(m);
      EnoughIs(m);
      ValidParts();
      var crc, ch, len, used, k, pos, out, avail :=
        calculatedBlockCRC, stateOutCh, stateOutLen, nblockUsed, k0, tPos, written, availOut;
      var lenOne := false;  // about to write a run of length one
      while true
        invariant used >= 1 && Cached(k, pos, used)
        invariant source.feed.Ends(used, m) == ends && (ends || |l.owed| > l.avail)
        invariant l.After(crcTable, count, out, avail, crc,
                          Repeat(ch, if lenOne then 1 else len) + source.feed.Bytes(used, m))
        decreases m
      {
        ghost var n;
        if !lenOne && len > 0 {
          ghost var w, a, c, len0 := out, avail, crc, len;
          len, out, avail, crc, n := EmptyRunButOne(ch, len, out, avail, crc);
          LedgerRun(l, crcTable, count, w, a, c, ch, len0, source.feed.Bytes(used, m), n);
          count := count + n;
          if avail == 0 { break; }
          lenOne := true;
        }
        if lenOne {
          if avail == 0 { len := 1; break; }
          LedgerOne(l, count, out, avail, crc, ch, source.feed.Bytes(used, m));
          out, crc, avail := out + [ch], UpdateCrc(crcTable, crc, ch), avail - 1;
          count := count + 1;
          lenOne := false;
        }
        if used == saveNblock + 1 {
          BlockDone(ch, used, m);
          len := 0;
          break;
        }
        MoreRuns(l, count, out, avail, crc, ch, used, m);
        CachedParts(k, pos, used);
        ghost var u := used;
        var r := ReadRun(Run(k, 1, k, pos, rand, used), true);
        StartedCached(u, r);
        StartedBytes(u, r, m, ch);
        ch, k, pos, used, m := r.ch, r.k0, r.pos, r.used, m - 1;
        if r.len == 1 { lenOne := true; } else { len := r.len; }
      }
      LedgerFull(l, crcTable, count, out, avail, crc, Repeat(ch, len) + source.feed.Bytes(used, m));
      SaveCached(crc, ch, len, used, k, pos, out, avail, m);
    }

    method SaveRun(crc: Word, ch: Byte, len: nat, out: Text, avail: nat)
      modifies `written, `availOut, `stateOutLen, `stateOutCh, `calculatedBlockCRC
      ensures written == out && availOut == avail && calculatedBlockCRC == crc && stateOutCh == ch && stateOutLen == len
    {
      calculatedBlockCRC, stateOutCh, stateOutLen, written, availOut := crc, ch, len, out, avail;
    }

    /** "save": the cached copies go back to the state. */
    method SaveCached(crc: Word, ch: Byte, len: nat, used: nat, k: Byte, pos: nat, out: Text, avail: nat, ghost m: nat)
      requires Serves() && Cached(k, pos, used) && used >= 1
      modifies `written, `availOut, `stateOutLen, `stateOutCh, `calculatedBlockCRC
      modifies `k0, `tPos, `nblockUsed
      ensures Valid() && written == out && availOut == avail && calculatedBlockCRC == crc && nblockUsed == used
      ensures Pending(m) == Repeat(ch, len) + source.feed.Bytes(used, m)
    {
      hide Serves, Cached, Feed.Bytes;
      SaveRun(crc, ch, len, out, avail);
      nblockUsed, k0, tPos := used, k, pos;
    }

    /** The block received has been stored as l; the arrays are apart. */
    ghost predicate Received(l: Text)
      reads tt, ll.ll16, ll.ll4, unzftab
    {
      && Shaped() && ll.Valid() && Histogram(unzftab[..], l) && |l| <= BLOCK_MAX
      && tt != ll.ll16 && tt != ll.ll4
      && if small then |l| <= ll.ll16.Length && forall j :: 0 <= j < |l| ==> ll.ll16[j] == l[j]
         else |l| <= tt.Length && forall j :: 0 <= j < |l| ==> tt[j] == l[j]
    }

    /** The feed that block l with row origPtr gives. */
    ghost function FeedOf(l: Text, origPtr: nat, randomised: bool): (f: Feed)
      requires origPtr < |l|
      ensures f.Valid() && f.last == l && f.orig == origPtr && f.randomised == randomised && f.rNums == rNums
    {
      Feed(l, Back(l), origPtr, randomised, rNums)
    }

    /** Invert the block in either representation. */
    method Invert(origPtr: nat, nblock: nat, ghost f: Feed)
      requires origPtr < nblock == |f.last| && f == FeedOf(f.last, origPtr, f.randomised)
      requires Received(f.last)
      modifies tt, ll.ll16, ll.ll4, cftab, cftabCopy, `source
      ensures Holds(source) && source.feed == f && (small ==> origPtr in source.ring) && ll.Valid()
    {
      hide LF, Iter, RandAfter, Less, Count;
      ghost var none := Inverted(false, [0], [], [], {}, f);
      if small {
        ghost var ring := InvertSmall(ll, unzftab, cftab, cftabCopy, nblock, origPtr, f.last);
        source := Inverted(true, [], ll.Links(), cftab[..], ring, f);
      } else {
        InvertFast(tt, unzftab, cftab, nblock, f.last);
        source := Inverted(false, tt[..], [], [], {}, f);
      }
    }

    /** From "now we know what nblock is" to the first byte of the block. It
        fails, as a data error, exactly when origPtr names no row. */
    method BeginBlock(origPtr: nat, nblock: nat, randomised: bool, ghost l: Text) returns (ok: bool)
      requires Received(l) && nblock == |l|
      modifies this, tt, ll.ll16, ll.ll4, cftab, cftabCopy
      ensures (ok <==> origPtr < nblock) && ll.Valid()
      ensures ok ==> Valid() && source.feed == FeedOf(l, origPtr, randomised) && stateOutLen == 0 && nblockUsed == 1
      ensures ok ==> calculatedBlockCRC == 0xffff_ffff && written == old(written) && availOut == old(availOut)
    {
      hide *;
      ReceivedLinks(l);
      ok := origPtr < nblock;
      if !ok { return; }
      stateOutLen, stateOutCh, calculatedBlockCRC := 0, 0, 0xffff_ffff;
      ghost var f := FeedOf(l, origPtr, randomised);
      Invert(origPtr, nblock, f);
      FirstByte(origPtr, nblock, randomised, f);
    }

    lemma {:induction false} ReceivedLinks(l: Text)
      requires Received(l)
      ensures ll.Valid()
    {
    }

    /** The state before any fetch: SMALL stands on the row itself, FAST has
        followed its link. */
    method FirstSpot(origPtr: nat) returns (pos: nat)
      requires Holds(source) && source.feed.orig == origPtr && (small ==> origPtr in source.ring)
      ensures source.Stands(pos, Rand(0, 0), 0)
    {
      ghost var f := source.feed;
      assert f.Spot(0) == origPtr && f.Spot(1) == f.back[origPtr];
      if small {
        pos := origPtr;
      } else {
        assert tt[..][origPtr] == f.last[origPtr] + 0x100 * f.back[origPtr];
        pos := tt[origPtr] / 0x100;
      }
    }

    method FirstByte(origPtr: nat, nblock: nat, randomised: bool, ghost f: Feed)
      requires Holds(source) && source.feed == f && f.orig == origPtr && (small ==> origPtr in source.ring)
      requires f.rNums == rNums && f.randomised == randomised && nblock == |f.last|
      modifies `saveNblock, `blockRandomised, `rand, `tPos, `k0, `nblockUsed
      ensures Valid() && nblockUsed == 1
    {
      hide *;
      saveNblock, blockRandomised := nblock, randomised;
      var pos := FirstSpot(origPtr);
      NowServes();
      k0, tPos, rand := Fetch(pos, Rand(0, 0), 0);
      nblockUsed := 1;
      NowServes();
      NowValid();
    }

    lemma {:induction false} NowServes()
      requires Holds(source) && source.feed.rNums == rNums && source.feed.randomised == blockRandomised
      requires saveNblock == |source.feed.last|
      ensures source.feed.Valid() && Serves()
    {
    }

    lemma {:induction false} NowValid()
      requires Serves() && source.Stands(tPos, rand, 1) && nblockUsed == 1 && k0 == source.feed.At(0)
      ensures Valid()
    {
    }

    /** unRLE_obuf_to_output, into a buffer of this size. */
    method DeliverInto(room: nat, ghost m0: nat) returns (ghost m: nat)
      requires Valid() && (source.feed.Ends(nblockUsed, m0) || |Pending(m0)| > room)
      modifies `written, `availOut, `stateOutLen, `stateOutCh, `calculatedBlockCRC
      modifies `k0, `tPos, `nblockUsed, `rand
      ensures Valid()
      ensures Delivered(old(Ledger(Pending(m0), written, room, calculatedBlockCRC)),
                        crcTable, written, availOut, calculatedBlockCRC, Pending(m))
      ensures source.feed.Ends(nblockUsed, m) == old(source.feed.Ends(nblockUsed, m0))
    {
      hide *;
      availOut := room;
      PendingIs(m0);
      EnoughIs(m0);
      if small || blockRandomised { m := Deliver(m0); } else { m := DeliverFast(m0); }
    }

    /** The next n bytes due, or as many as there are. */
    ghost function Due(n: nat): (s: Text)
      requires source.feed.Valid() && nblockUsed >= 1
      reads `stateOutCh, `stateOutLen, `source, `nblockUsed
      ensures |s| <= n
    {
      source.feed.Due(Repeat(stateOutCh, stateOutLen), nblockUsed, n)
    }

    /** Everything due has been delivered. */
    predicate Finished()
      reads `nblockUsed, `saveNblock, `stateOutLen
    {
      nblockUsed == saveNblock + 1 && stateOutLen == 0
    }

    /** What the state says is left, in runs of whatever number. */
    lemma {:induction false} DueIs(m: nat, n: nat)
      requires Valid() && (source.feed.Ends(nblockUsed, m) || |Pending(m)| >= n)
      ensures Due(n) == Pending(m)[..Min(n, |Pending(m)|)]
    {
      hide Feed.Due, Feed.Bytes, Feed.Ends;
      source.feed.DueAny(Repeat(stateOutCh, stateOutLen), nblockUsed, m, n);
    }

    lemma {:induction false} FinishedIs(m: nat)
      requires Valid()
      ensures Finished() <==> Pending(m) == [] && source.feed.Ends(nblockUsed, m)
    {
      hide Feed.Alike, Feed.Next, Feed.Length, Serves, Cached;
      if nblockUsed != saveNblock + 1 && m > 0 { source.feed.BytesSome(nblockUsed, m); }
    }

    /** rest is all that is due before the block ends. */
    ghost predicate Owes(rest: Text)
      requires source.feed.Valid() && nblockUsed >= 1
      reads `stateOutCh, `stateOutLen, `source, `nblockUsed
    {
      exists m: nat :: source.feed.Ends(nblockUsed, m) && Pending(m) == rest
    }

    /** One delivery from a block that ends. */
    method DeliverRest(room: nat, ghost rest: Text) returns (ghost k: nat)
      requires Valid() && Owes(rest)
      modifies `written, `availOut, `stateOutLen, `stateOutCh, `calculatedBlockCRC
      modifies `k0, `tPos, `nblockUsed, `rand
      ensures Valid() && k <= room && k <= |rest| && (k == room || k == |rest|) && Owes(rest[k..])
      ensures written == old(written) + rest[..k] && availOut == room - k
      ensures calculatedBlockCRC == CrcOf(crcTable, old(calculatedBlockCRC), rest[..k])
      ensures Finished() <==> k == |rest|
    {
      hide *;
      ghost var m0 := SomeRuns(rest);
      ghost var l := Ledger(Pending(m0), written, room, calculatedBlockCRC);
      ghost var m := DeliverInto(room, m0);
      k := DeliveredIs(l, written, availOut, calculatedBlockCRC, Pending(m));
      NowOwes(m);
      FinishedIs(m);
    }

    lemma {:induction false} SomeRuns(rest: Text) returns (m: nat)
      requires source.feed.Valid() && nblockUsed >= 1 && Owes(rest)
      ensures source.feed.Ends(nblockUsed, m) && Pending(m) == rest
    {
      m :| source.feed.Ends(nblockUsed, m) && Pending(m) == rest;
    }

    lemma {:induction false} NowOwes(m: nat)
      requires source.feed.Valid() && nblockUsed >= 1 && source.feed.Ends(nblockUsed, m)
      ensures Owes(Pending(m))
    {
    }

    lemma {:induction false} DeliveredIs(l: Ledger, w: Text, a: nat, c: Word, o: Text) returns (k: nat)
      requires Delivered(l, crcTable, w, a, c, o)
      ensures k <= l.avail && k <= |l.owed| && (k == l.avail || k == |l.owed|) && o == l.owed[k..] && (o == [] <==> k == |l.owed|)
      ensures w == l.written + l.owed[..k] && a == l.avail - k && c == CrcOf(crcTable, l.crc, l.owed[..k])
    {
      hide CrcOf;
      k := if l.avail <= |l.owed| then l.avail else |l.owed|;
    }

    /** A new block that decodes to data owes all of it. */
    lemma {:induction false} OwesText(data: Text)
      requires Valid() && nblockUsed == 1 && stateOutLen == 0
      requires WellFormed(source.feed.Block()) && Expand(source.feed.Block()) == data
      ensures Owes(data)
    {
      hide Feed.Bytes, Feed.Ends, WellFormed, Expand, Valid;
      var f := source.feed;
      assert f.Block()[0..] == f.Block();
      f.BytesExpand(1, |f.last|);
      assert Pending(|f.last|) == data;
    }

    /** Any block, in any sequence of buffer sizes: together they receive the first
        of the bytes due, the CRC covers exactly those, the ones that were to come
        after them still are, and the block counts as finished exactly when there
        are none. */
    method DeliverAll(sizes: seq<nat>, ghost ahead: nat) returns (finished: bool)
      requires Valid()
      modifies `written, `availOut, `stateOutLen, `stateOutCh, `calculatedBlockCRC
      modifies `k0, `tPos, `nblockUsed, `rand
      ensures Valid()
      ensures var t := Total(sizes);
        && written == old(written) + old(Due(t)) && calculatedBlockCRC == CrcOf(crcTable, old(calculatedBlockCRC), old(Due(t)))
        && old(Due(t + ahead)) == old(Due(t)) + Due(ahead)
        && (finished <==> |old(Due(t + 1))| <= t)
    {
      hide *;
      ghost var t := Total(sizes);
      ghost var m0 := t + ahead + 1;
      ghost var m: nat, ends, o, w, c := m0, source.feed.Ends(nblockUsed, m0), Pending(m0), written, calculatedBlockCRC;
      PendingLong(m0);
      DueAll(m0, t, ahead);
      ghost var d, da, d1 := Due(t), Due(t + ahead), Due(t + 1);
      ghost var total := 0;
      OfferedNone(o, w, c, crcTable);
      TotalNone(sizes);
      for i := 0 to |sizes|
        invariant Valid() && total == Total(sizes[..i])
        invariant source.feed.Ends(nblockUsed, m) == ends && (ends || |o| > t + ahead)
        invariant Offered(o, w, c, crcTable, total, written, calculatedBlockCRC, Pending(m))
      {
        ghost var o1, w1, c1 := Pending(m), written, calculatedBlockCRC;
        TotalNext(sizes, i);
        TotalPart(sizes, i + 1);
        OfferedLeft(o, w, c, total, w1, c1, o1);
        m := DeliverInto(sizes[i], m);
        OfferedMore(o, w, c, crcTable, total, w1, c1, o1, sizes[i], written, availOut, calculatedBlockCRC, Pending(m));
        total := total + sizes[i];
      }
      assert sizes[..|sizes|] == sizes;
      OfferedDone(o, w, c, crcTable, t, written, calculatedBlockCRC, Pending(m));
      OfferedLeft(o, w, c, t, written, calculatedBlockCRC, Pending(m));
      FinishedIs(m);
      DueIs(m, ahead);
      AllDue(o, t, ahead);
      finished := Finished();
    }

    lemma {:induction false} PendingLong(m: nat)
      requires source.feed.Valid() && nblockUsed >= 1
      ensures source.feed.Ends(nblockUsed, m) || |Pending(m)| >= m
    {
      hide Feed.Bytes, Feed.Ends;
      source.feed.BytesLong(nblockUsed, m);
    }

    lemma {:induction false} DueAll(m: nat, t: nat, ahead: nat)
      requires Valid() && m == t + ahead + 1
      ensures Due(t) == Pending(m)[..Min(t, |Pending(m)|)]
      ensures Due(t + ahead) == Pending(m)[..Min(t + ahead, |Pending(m)|)]
      ensures Due(t + 1) == Pending(m)[..Min(t + 1, |Pending(m)|)]
    {
      hide *;
      PendingLong(m);
      DueIs(m, t);
      DueIs(m, t + ahead);
      DueIs(m, t + 1);
    }

    lemma {:induction false} OfferedLeft(o: Text, w: Text, c: Word, total: nat, w': Text, c': Word, o': Text)
      requires Offered(o, w, c, crcTable, total, w', c', o')
      ensures o' == o[Min(total, |o|)..] && |o'| == |o| - Min(total, |o|) && Min(total, |o|) <= total
      ensures w' == w + o[..Min(total, |o|)] && c' == CrcOf(crcTable, c, o[..Min(total, |o|)])
    {
    }

    lemma {:induction false} AllDue(o: Text, t: nat, ahead: nat)
      ensures var k := Min(t, |o|);
        && o[..Min(t + ahead, |o|)] == o[..k] + o[k..][..Min(ahead, |o| - k)]
        && (|o[..Min(t + 1, |o|)]| <= t <==> |o| <= t)
    {
    }

    /** Any block received, with any row for its start: refused exactly when there is
        no such row. Whatever the back end and the buffer sizes, the first bytes it
        delivers come out in order, and it comes to an end exactly when its runs are
        well formed. */
    method OutputBlock(origPtr: nat, nblock: nat, randomised: bool, sizes: seq<nat>, ghost l: Text)
      returns (ok: bool, finished: bool)
      requires Received(l) && nblock == |l|
      modifies this, tt, ll.ll16, ll.ll4, cftab, cftabCopy
      ensures ok <==> origPtr < nblock
      ensures ok ==> var f, t := FeedOf(l, origPtr, randomised), Total(sizes);
        && written == old(written) + f.Due([], 1, t)
        && calculatedBlockCRC == CrcOf(crcTable, 0xffff_ffff, f.Due([], 1, t))
        && (finished <==> WellFormed(f.Block()) && |Expand(f.Block())| <= t)
    {
      hide *;
      finished := false;
      ok := BeginBlock(origPtr, nblock, randomised, l);
      if ok {
        DueOfBlock(Total(sizes));
        finished := DeliverAll(sizes, 0);
      }
    }

    lemma {:induction false} DueOfBlock(t: nat)
      requires Valid() && nblockUsed == 1 && stateOutLen == 0
      ensures Due(t) == source.feed.Due([], 1, t)
      ensures |Due(t + 1)| <= t <==> WellFormed(source.feed.Block()) && |Expand(source.feed.Block())| <= t
    {
      hide Feed.Due, WellFormed, Expand, Valid, Feed.Block;
      assert Repeat(stateOutCh, 0) == [];
      source.feed.Delivers(t + 1);
    }

    /** A whole block: the bytes of data, run-length encoded and transformed,
        come back in order. */
    method DecodeBlock(origPtr: nat, nblock: nat, sizes: seq<nat>, ghost l: Text, ghost data: Text)
      returns (finished: bool)
      requires Received(l) && nblock == |l| && IsTransform(Encode(data), l, origPtr)
      modifies this, tt, ll.ll16, ll.ll4, cftab, cftabCopy
      ensures written == old(written) + data[..Min(Total(sizes), |data|)]
      ensures calculatedBlockCRC == CrcOf(crcTable, 0xffff_ffff, data[..Min(Total(sizes), |data|)])
      ensures finished <==> Total(sizes) >= |data|
    {
      hide *;
      RowInBlock(Encode(data), l, origPtr);
      FeedIsBack(l, origPtr);
      ghost var f := FeedOf(l, origPtr, false);
      BlockIsText(f, Encode(data));
      ExpandEncode(data);
      f.Delivers(Total(sizes));
      var ok;
      ok, finished := OutputBlock(origPtr, nblock, false, sizes, l);
    }

    lemma {:induction false} FeedIsBack(l: Text, origPtr: nat)
      requires origPtr < |l|
      ensures FeedOf(l, origPtr, false).back == Back(l)
    {
    }

    lemma {:induction false} RowInBlock(s: Text, l: Text, origPtr: nat)
      requires IsTransform(s, l, origPtr)
      ensures origPtr < |l|
    {
    }
  }
}
