/** A whole bzip2 stream: its magic, its blocks one after another, and the trailer with
    the CRC of them all. Every text has one. */
module StreamFormat {
  import opened Bits
  import opened BwtSpec
  import opened InverseBwt
  import opened BitString
  import opened BitStream
  import opened RunLength
  import opened Huffman
  import opened MoveToFront
  import opened BlockOutput
  import opened Crc
  import opened Randomise
  import opened Symbols
  import opened CodeTables
  import opened Parser
  import opened Suspension
  import opened SymbolLoop
  import opened BlockBits

  // ---------------------------------------------------------------- the blocks

  /** What the bytes of a block are fetched from. */
  ghost function FeedFor(rNums: RandNums, l: Text, orig: nat, randomised: bool): (f: Feed)
    requires orig < |l|
    ensures f.Valid() && f.last == l && f.back == Back(l) && f.orig == orig && f.randomised == randomised && f.rNums == rNums
  {
    Feed(l, Back(l), orig, randomised, rNums)
  }

  /** A block of the stream and the data it carries. */
  datatype Part = Part(layout: Layout, data: Text)
  {
    /** The symbols of the layout stand for a block of which the bytes fetched are well
        formed and, expanded, the data. */
    ghost predicate Carries(rNums: RandNums, size: nat) {
      && layout.Ok()
      && var o := layout.Block(100000 * size);
      && o.Done? && o.lost == NoLoss() && layout.origPtr < |o.text|
      && var b := FeedFor(rNums, o.text, layout.origPtr, layout.randomised).Block();
      && WellFormed(b) && Expand(b) == data
    }

    /** The CRC that is stored with it is that of the data. */
    predicate Checks() {
      layout.crc == BlockCrcOf(data)
    }
  }

  type Parts = seq<Part>

  ghost predicate AllCarry(rNums: RandNums, size: nat, parts: Parts) {
    forall i :: 0 <= i < |parts| ==> parts[i].Carries(rNums, size)
  }

  function AllData(parts: Parts): Text {
    if parts == [] then [] else parts[0].data + AllData(parts[1..])
  }

  // ------------------------------------------------------------------ the end

  /** What follows the blocks: the trailer, with some CRC stored in it; or bits that are
      wrong; or, with no blocks, four bytes that do not begin a stream. */
  datatype Ending = Closed(stored: Word) | Torn(bits: seq<Bit>) | Alien(head: Text)

  /** Given bits the machine stops at l, whatever comes after them. */
  ghost predicate StopsAt(s: State, bits: seq<Bit>, l: Label) {
    s.Valid() && forall rest: seq<Bit> {:trigger bits + rest} :: RunLive(s, bits + rest).0.at == l
  }

  ghost predicate EndOk(size: nat, parts: Parts, end: Ending) {
    match end
    case Closed(_) => true
    case Torn(bits) =>
      forall s: State {:trigger StopsAt(s, bits, BadData)} ::
        s.Valid() && s.at == BlkHdr(1) && s.f.blockSize100k == size ==> StopsAt(s, bits, BadData)
    case Alien(head) => parts == [] && |head| == 4 && !Begins(1, head)
  }

  /** The combined CRC of the blocks, c being that of those before. */
  function CombinedOf(c: Word, parts: Parts): Word
    decreases |parts|
  {
    if parts == [] then c else CombinedOf(Combine(c, BlockCrcOf(parts[0].data)), parts[1..])
  }

  datatype Code = BzOk | BzStreamEnd | BzDataError | BzDataErrorMagic | BzSequenceError

  /** How the stream is reported to end: with an error at the first block whose CRC is
      wrong, or at bits that are, or when the combined CRC is. */
  function Verdict(c: Word, parts: Parts, end: Ending): Code
    decreases |parts|
  {
    if parts != [] then
      if parts[0].Checks() then Verdict(Combine(c, BlockCrcOf(parts[0].data)), parts[1..], end) else BzDataError
    else
      match end
      case Closed(stored) => if stored == c then BzStreamEnd else BzDataError
      case Torn(_) => BzDataError
      case Alien(_) => BzDataErrorMagic
  }

  /** What comes out until then: a block whose CRC is wrong still does. */
  function Yield(parts: Parts): Text {
    if parts == [] then [] else parts[0].data + if parts[0].Checks() then Yield(parts[1..]) else []
  }

  /** Only a stream of which all CRCs are right is reported to be good; then all of its
      data has come out. */
  lemma {:induction false} VerdictIff(c: Word, parts: Parts, end: Ending)
    ensures Verdict(c, parts, end) == BzStreamEnd
      <==> (forall i :: 0 <= i < |parts| ==> parts[i].Checks()) && end == Closed(CombinedOf(c, parts))
    ensures (forall i :: 0 <= i < |parts| ==> parts[i].Checks()) ==> Yield(parts) == AllData(parts)
    ensures Yield(parts) <= AllData(parts)
    decreases |parts|
  {
    hide BlockCrcOf, Combine;
    if parts != [] {
      VerdictIff(Combine(c, BlockCrcOf(parts[0].data)), parts[1..], end);
      assert parts == [parts[0]] + parts[1..];
    }
  }

  ghost function EndBits(end: Ending): seq<Bit> {
    match end
    case Closed(stored) => BitsOfText(TrailerFrom(1)) + BitsOfText(BytesOf(stored, 4))
    case Torn(bits) => bits
    case Alien(head) => BitsOfText(head)
  }

  /** The bits from the head of the first of parts on. */
  ghost function TailBits(rNums: RandNums, size: nat, parts: Parts, end: Ending): seq<Bit>
    requires AllCarry(rNums, size, parts)
    decreases |parts|
  {
    if parts == [] then EndBits(end)
    else parts[0].layout.Bits() + TailBits(rNums, size, parts[1..], end)
  }

  /** What is left of the six bytes that announce the end. */
  function TrailerFrom(n: nat): (b: Text)
    requires 1 <= n <= 7
    ensures |b| == 7 - n && (n < 7 ==> b[0] == END_HEADER[n - 1])
  {
    [0x17, 0x72, 0x45, 0x38, 0x50, 0x90][n - 1..]
  }

  function MagicFrom(n: nat, size: nat): (b: Text)
    requires 1 <= n <= 5 && 1 <= size <= 9
    ensures |b| == 5 - n
  {
    [0x42, 0x5a, 0x68, 0x30 + size][n - 1..]
  }

  /** The bits of a stream. */
  ghost function StreamBits(rNums: RandNums, size: nat, parts: Parts, end: Ending): seq<Bit>
    requires 1 <= size <= 9 && AllCarry(rNums, size, parts)
  {
    if end.Alien? then EndBits(end) else BitsOfText(MagicFrom(1, size)) + TailBits(rNums, size, parts, end)
  }

  // ------------------------------------------------------------ magic and trailer

  lemma {:induction false} MagicTaken(s: State, n: nat, size: nat) returns (s': State)
    requires s.Valid() && 1 <= n <= 4 && s.at == Magic(n) && 1 <= size <= 9
    ensures Takes(s, BitsOfText(MagicFrom(n, size)), s') && s'.Valid()
    ensures s'.at == BlkHdr(1) && s'.f.blockSize100k == size
    decreases 5 - n
  {
    hide *;
    MagicIs(n, size);
    var c := MagicFrom(n, size)[0];
    MagicStep(s, n, size, c);
    ByteTaken(s, c);
    FirstByte(MagicFrom(n, size));
    var w := s.After(c);
    if n < 4 {
      s' := MagicTaken(w, n + 1, size);
    } else {
      s' := w;
      NoMore(w, MagicFrom(n + 1, size));
    }
    TakesBoth(s, BitsOf(c, 8), w, BitsOfText(MagicFrom(n + 1, size)), s');
  }

  lemma {:induction false} MagicIs(n: nat, size: nat)
    requires 1 <= n <= 4 && 1 <= size <= 9
    ensures MagicFrom(n, size)[0] == [0x42, 0x5a, 0x68, 0x30 + size][n - 1] && MagicFrom(n, size)[1..] == MagicFrom(n + 1, size)
    ensures MagicFrom(n, size) != []
  {
  }

  lemma {:induction false} MagicStep(s: State, n: nat, size: nat, c: Byte)
    requires s.Valid() && 1 <= n <= 4 && s.at == Magic(n) && 1 <= size <= 9 && c == [0x42, 0x5a, 0x68, 0x30 + size][n - 1]
    ensures !s.at.Stopped() && s.Need() == 8
    ensures var w := s.After(c);
      w.at == (if n < 4 then Magic(n + 1) else BlkHdr(1)) && (n == 4 ==> w.f.blockSize100k == size)
  {
    hide State.CheckCode, State.AfterCode, State.AfterCoding2, State.AfterSelector3, State.AfterMapping1, State.AfterMapping2,
         State.InCode, State.RowSoFar;
  }

  /** The trailer gives the combined CRC. */
  lemma {:induction false} TrailerTaken(s: State, c: Word) returns (s': State)
    requires s.Valid() && s.at == BlkHdr(1)
    ensures Comes(s, BitsOfText(TrailerFrom(1)) + BitsOfText(BytesOf(c, 4)), s')
    ensures s'.at == StreamEnd && s'.f.storedCombinedCRC == c
  {
    hide *;
    var s1 := EndTaken(s, 1);
    var b := BytesOf(c, 4);
    WordBytes(c);
    s' := CombinedTaken(s1, 1, b);
    TakesAt(s1, BitsOfText(b), s', []);
    EndStops(s');
    ComesNow(s', []);
    ComesAfter(s1, BitsOfText(b), s', [], s');
    assert BitsOfText(b) + [] == BitsOfText(b);
    ComesAfter(s, BitsOfText(TrailerFrom(1)), s1, BitsOfText(b), s');
  }

  lemma {:induction false} EndStops(s: State)
    requires s.at == StreamEnd
    ensures s.at.Stopped()
  {
  }

  lemma {:induction false} WordBytes(c: Word)
    ensures Onto(0, BytesOf(c, 4)) == c
  {
    assert Pow256(1) == 0x100 && Pow256(2) == 0x1_0000 && Pow256(3) == 0x100_0000 && Pow256(4) == 0x1_0000_0000;
    NumberOfBytes(c, 4);
    OntoNumber(0, BytesOf(c, 4));
  }

  lemma {:induction false} EndTaken(s: State, n: nat) returns (s': State)
    requires s.Valid() && 1 <= n <= 6 && s.at == (if n == 1 then BlkHdr(1) else EndHdr(n))
    ensures Takes(s, BitsOfText(TrailerFrom(n)), s') && s'.Valid()
    ensures s'.at == CombinedCrc(1) && s'.f.storedCombinedCRC == 0
    decreases 6 - n
  {
    hide *;
    TrailerIs(n);
    var c := TrailerFrom(n)[0];
    EndStep(s, n, c);
    ByteTaken(s, c);
    FirstByte(TrailerFrom(n));
    var w := s.After(c);
    if n < 6 {
      s' := EndTaken(w, n + 1);
    } else {
      s' := w;
      NoMore(w, TrailerFrom(n + 1));
    }
    TakesBoth(s, BitsOf(c, 8), w, BitsOfText(TrailerFrom(n + 1)), s');
  }

  lemma {:induction false} TrailerIs(n: nat)
    requires 1 <= n <= 6
    ensures TrailerFrom(n) != [] && TrailerFrom(n)[0] == END_HEADER[n - 1] && TrailerFrom(n)[1..] == TrailerFrom(n + 1)
  {
  }

  lemma {:induction false} EndStep(s: State, n: nat, c: Byte)
    requires s.Valid() && 1 <= n <= 6 && s.at == (if n == 1 then BlkHdr(1) else EndHdr(n)) && c == END_HEADER[n - 1]
    ensures !s.at.Stopped() && s.Need() == 8
    ensures var w := s.After(c);
      w.at == (if n < 6 then EndHdr(n + 1) else CombinedCrc(1)) && (n == 6 ==> w.f.storedCombinedCRC == 0)
  {
    hide State.CheckCode, State.AfterCode, State.AfterCoding2, State.AfterSelector3, State.AfterMapping1, State.AfterMapping2,
         State.InCode, State.RowSoFar;
  }

  lemma {:induction false} CombinedTaken(s: State, n: nat, b: Text) returns (s': State)
    requires s.Valid() && 1 <= n <= 4 && s.at == CombinedCrc(n) && |b| == 5 - n && s.f.storedCombinedCRC >= 0
    ensures Takes(s, BitsOfText(b), s') && s'.at == StreamEnd && s'.f.storedCombinedCRC == Onto(s.f.storedCombinedCRC, b)
    decreases |b|
  {
    hide *;
    var c := b[0];
    CombinedStep(s, n, c);
    ByteTaken(s, c);
    FirstByte(b);
    OntoStep(s.f.storedCombinedCRC, b);
    var w := s.After(c);
    if n < 4 {
      s' := CombinedTaken(w, n + 1, b[1..]);
    } else {
      s' := w;
      OntoNothing(w.f.storedCombinedCRC, b[1..]);
      NoMore(w, b[1..]);
    }
    TakesBoth(s, BitsOf(c, 8), w, BitsOfText(b[1..]), s');
  }

  lemma {:induction false} CombinedStep(s: State, n: nat, c: Byte)
    requires s.Valid() && 1 <= n <= 4 && s.at == CombinedCrc(n)
    ensures !s.at.Stopped() && s.Need() == 8
    ensures var w := s.After(c);
      && w.at == (if n < 4 then CombinedCrc(n + 1) else StreamEnd)
      && w.f == s.f.(storedCombinedCRC := s.f.storedCombinedCRC * 0x100 + c)
  {
    hide State.CheckCode, State.AfterCode, State.AfterCoding2, State.AfterSelector3, State.AfterMapping1, State.AfterMapping2,
         State.InCode, State.RowSoFar;
  }

  // ------------------------------------------------------ nothing else is taken

  lemma {:induction false} StopsNow(s: State, c: Byte, more: seq<Bit>)
    requires s.Valid() && !s.at.Stopped() && s.Need() == 8 && s.After(c).at.Stopped()
    ensures StopsAt(s, BitsOf(c, 8) + more, s.After(c).at)
  {
    hide State.Valid, State.After, State.Need, RunLive, BitsOf, Takes;
    ByteTaken(s, c);
    var w, bits := s.After(c), BitsOf(c, 8) + more;
    forall rest: seq<Bit> ensures RunLive(s, bits + rest).0.at == w.at {
      TakesAt(s, BitsOf(c, 8), w, more + rest);
      assert BitsOf(c, 8) + (more + rest) == bits + rest;
      RunStops(w, more + rest);
    }
  }

  lemma {:induction false} StopsAfter(s: State, a: seq<Bit>, w: State, b: seq<Bit>, l: Label)
    requires Takes(s, a, w) && StopsAt(w, b, l)
    ensures StopsAt(s, a + b, l)
  {
    hide State.Valid, RunLive;
    forall rest: seq<Bit> ensures RunLive(s, a + b + rest).0.at == l {
      TakesAt(s, a, w, b + rest);
      assert a + (b + rest) == a + b + rest;
    }
  }

  lemma {:induction false} ComesTo(s: State, bits: seq<Bit>, s': State)
    requires Comes(s, bits, s')
    ensures StopsAt(s, bits, s'.at)
  {
    hide State.Valid, RunLive;
    forall rest: seq<Bit> ensures RunLive(s, bits + rest).0.at == s'.at {
      ComesAt(s, bits, s', rest);
    }
  }

  /** The n-th byte of a stream. */
  predicate MagicByte(n: nat, c: Byte)
    requires 1 <= n <= 4
  {
    if n == 4 then 0x31 <= c <= 0x39 else c == [0x42, 0x5a, 0x68][n - 1]
  }

  /** b begins one, from the n-th byte on. */
  predicate Begins(n: nat, b: Text)
    requires 1 <= n <= 5 && |b| == 5 - n
    decreases |b|
  {
    n == 5 || (MagicByte(n, b[0]) && Begins(n + 1, b[1..]))
  }

  lemma {:induction false} BeginsIff(b: Text)
    requires |b| == 4
    ensures Begins(1, b) <==> 0x31 <= b[3] <= 0x39 && b == MagicFrom(1, b[3] - 0x30)
  {
    assert b[1..][1..] == b[2..] && b[2..][1..] == b[3..] && b[3..][1..] == b[4..];
    assert Begins(4, b[3..]) <==> 0x31 <= b[3] <= 0x39;
    assert Begins(2, b[1..]) <==> b[1] == 0x5a && b[2] == 0x68 && 0x31 <= b[3] <= 0x39;
    if 0x31 <= b[3] <= 0x39 {
      assert MagicFrom(1, b[3] - 0x30) == [0x42, 0x5a, 0x68, b[3]];
    }
  }

  /** Four bytes begin a stream, or are refused. */
  lemma {:induction false} MagicOnly(s: State, n: nat, b: Text)
    requires s.Valid() && 1 <= n <= 4 && s.at == Magic(n) && |b| == 5 - n && !Begins(n, b)
    ensures StopsAt(s, BitsOfText(b), BadMagic)
    decreases |b|
  {
    hide *;
    var c := b[0];
    FirstByte(b);
    BeginsStep(n, b);
    if MagicByte(n, c) {
      FirstMagic(n, c);
      MagicStep(s, n, 1, c);
      ByteTaken(s, c);
      MagicOnly(s.After(c), n + 1, b[1..]);
      StopsAfter(s, BitsOf(c, 8), s.After(c), BitsOfText(b[1..]), BadMagic);
    } else {
      MagicWrong(s, n, c);
      StopsNow(s, c, BitsOfText(b[1..]));
    }
  }

  lemma {:induction false} BeginsStep(n: nat, b: Text)
    requires 1 <= n <= 4 && |b| == 5 - n && !Begins(n, b)
    ensures MagicByte(n, b[0]) ==> n < 4 && !Begins(n + 1, b[1..])
  {
  }

  lemma {:induction false} FirstMagic(n: nat, c: Byte)
    requires 1 <= n < 4 && MagicByte(n, c)
    ensures c == [0x42, 0x5a, 0x68, 0x31][n - 1]
  {
  }

  lemma {:induction false} MagicWrong(s: State, n: nat, c: Byte)
    requires s.Valid() && 1 <= n <= 4 && s.at == Magic(n) && !MagicByte(n, c)
    ensures !s.at.Stopped() && s.Need() == 8 && s.After(c).at == BadMagic && s.After(c).at.Stopped()
  {
    hide State.CheckCode, State.AfterCode, State.AfterCoding2, State.AfterSelector3, State.AfterMapping1, State.AfterMapping2,
         State.InCode, State.RowSoFar;
  }

  /** Six bytes announce a block or the end, or are refused. */
  lemma {:induction false} HeaderOnly(s: State, b: Text)
    requires s.Valid() && s.at == BlkHdr(1) && |b| == 6 && b != HeaderFrom(1) && b != TrailerFrom(1)
    ensures StopsAt(s, BitsOfText(b), BadData)
  {
    hide *;
    var c := b[0];
    FirstByte(b);
    Announcers(b);
    if c == BLOCK_HEADER[0] {
      HeaderStep(s, 1, c);
      ByteTaken(s, c);
      HeaderRest(s.After(c), 2, b[1..]);
      StopsAfter(s, BitsOf(c, 8), s.After(c), BitsOfText(b[1..]), BadData);
    } else if c == END_HEADER[0] {
      EndStep(s, 1, c);
      ByteTaken(s, c);
      TrailerRest(s.After(c), 2, b[1..]);
      StopsAfter(s, BitsOf(c, 8), s.After(c), BitsOfText(b[1..]), BadData);
    } else {
      HeaderWrong(s, 1, c);
      StopsNow(s, c, BitsOfText(b[1..]));
    }
  }

  lemma {:induction false} Announcers(b: Text)
    requires |b| == 6 && b != HeaderFrom(1) && b != TrailerFrom(1)
    ensures |BLOCK_HEADER| == |END_HEADER| == 6 && BLOCK_HEADER[0] != END_HEADER[0]
    ensures b[0] == BLOCK_HEADER[0] ==> b[1..] != HeaderFrom(2)
    ensures b[0] == END_HEADER[0] ==> b[1..] != TrailerFrom(2)
  {
    HeaderTail(1);
    TrailerIs(1);
    assert b == [b[0]] + b[1..];
    assert HeaderFrom(1) == [HeaderFrom(1)[0]] + HeaderFrom(2) && TrailerFrom(1) == [TrailerFrom(1)[0]] + TrailerFrom(2);
  }

  lemma {:induction false} HeaderRest(s: State, n: nat, b: Text)
    requires s.Valid() && 2 <= n <= 6 && s.at == BlkHdr(n) && |b| == 7 - n && b != HeaderFrom(n)
    ensures StopsAt(s, BitsOfText(b), BadData)
    decreases |b|
  {
    hide *;
    var c := b[0];
    FirstByte(b);
    HeaderMore(n, b);
    if c == BLOCK_HEADER[n - 1] {
      HeaderStep(s, n, c);
      ByteTaken(s, c);
      HeaderRest(s.After(c), n + 1, b[1..]);
      StopsAfter(s, BitsOf(c, 8), s.After(c), BitsOfText(b[1..]), BadData);
    } else {
      HeaderWrong(s, n, c);
      StopsNow(s, c, BitsOfText(b[1..]));
    }
  }

  lemma {:induction false} HeaderMore(n: nat, b: Text)
    requires 2 <= n <= 6 && |b| == 7 - n && b != HeaderFrom(n)
    ensures |BLOCK_HEADER| == 6 && (b[0] == BLOCK_HEADER[n - 1] ==> n < 6 && b[1..] != HeaderFrom(n + 1))
  {
    HeaderTail(n);
    assert b == [b[0]] + b[1..] && HeaderFrom(n) == [HeaderFrom(n)[0]] + HeaderFrom(n + 1);
  }

  lemma {:induction false} TrailerRest(s: State, n: nat, b: Text)
    requires s.Valid() && 2 <= n <= 6 && s.at == EndHdr(n) && |b| == 7 - n && b != TrailerFrom(n)
    ensures StopsAt(s, BitsOfText(b), BadData)
    decreases |b|
  {
    hide *;
    var c := b[0];
    FirstByte(b);
    TrailerMore(n, b);
    if c == END_HEADER[n - 1] {
      EndStep(s, n, c);
      ByteTaken(s, c);
      TrailerRest(s.After(c), n + 1, b[1..]);
      StopsAfter(s, BitsOf(c, 8), s.After(c), BitsOfText(b[1..]), BadData);
    } else {
      EndWrong(s, n, c);
      StopsNow(s, c, BitsOfText(b[1..]));
    }
  }

  lemma {:induction false} TrailerMore(n: nat, b: Text)
    requires 2 <= n <= 6 && |b| == 7 - n && b != TrailerFrom(n)
    ensures |END_HEADER| == 6 && (b[0] == END_HEADER[n - 1] ==> n < 6 && b[1..] != TrailerFrom(n + 1))
  {
    TrailerIs(n);
    assert b == [b[0]] + b[1..] && TrailerFrom(n) == [TrailerFrom(n)[0]] + TrailerFrom(n + 1);
  }

  lemma {:induction false} HeaderWrong(s: State, n: nat, c: Byte)
    requires s.Valid() && 1 <= n <= 6 && s.at == BlkHdr(n) && c != BLOCK_HEADER[n - 1] && (n == 1 ==> c != END_HEADER[0])
    ensures !s.at.Stopped() && s.Need() == 8 && s.After(c).at == BadData && s.After(c).at.Stopped()
  {
    hide State.CheckCode, State.AfterCode, State.AfterCoding2, State.AfterSelector3, State.AfterMapping1, State.AfterMapping2,
         State.InCode, State.RowSoFar;
  }

  lemma {:induction false} EndWrong(s: State, n: nat, c: Byte)
    requires s.Valid() && 2 <= n <= 6 && s.at == EndHdr(n) && c != END_HEADER[n - 1]
    ensures !s.at.Stopped() && s.Need() == 8 && s.After(c).at == BadData && s.After(c).at.Stopped()
  {
    hide State.CheckCode, State.AfterCode, State.AfterCoding2, State.AfterSelector3, State.AfterMapping1, State.AfterMapping2,
         State.InCode, State.RowSoFar;
  }

  /** So six bytes that announce nothing are wrong bits. */
  lemma {:induction false} HeaderTorn(size: nat, parts: Parts, b: Text)
    requires |b| == 6 && b != HeaderFrom(1) && b != TrailerFrom(1)
    ensures EndOk(size, parts, Torn(BitsOfText(b)))
  {
    hide State.Valid, StopsAt, HeaderFrom, TrailerFrom, BitsOfText;
    forall s: State | s.Valid() && s.at == BlkHdr(1) && s.f.blockSize100k == size ensures StopsAt(s, BitsOfText(b), BadData) {
      HeaderOnly(s, b);
    }
  }

  /** And so is a block that does not fit or whose start names no row. */
  lemma {:induction false} BlockTorn(size: nat, parts: Parts, b: Layout)
    requires b.Ok() && var o := b.Block(100000 * size); !(o.Done? && b.origPtr < |o.text|)
    ensures EndOk(size, parts, Torn(b.Bits()))
  {
    hide State.Valid, StopsAt, Layout.Ok, Layout.Block, Layout.Bits, Comes;
    forall s: State | s.Valid() && s.at == BlkHdr(1) && s.f.blockSize100k == size ensures StopsAt(s, b.Bits(), BadData) {
      var s' := BlockTaken(b, size, s);
      ComesTo(s, b.Bits(), s');
    }
  }

  // ------------------------------------------------- every text has a stream

  /** The symbols of a text end with the end of block, and are not many. */
  lemma {:induction false} EncodeWhole(text: Text, list: Text, bytes: Text, zeros: nat)
    requires Alphabet(list, bytes) && Reaches(list, bytes) && forall i :: 0 <= i < |text| ==> text[i] in bytes
    ensures Whole(EncodeFrom(text, list, bytes, zeros), bytes)
    ensures |EncodeFrom(text, list, bytes, zeros)| <= |text| + zeros + 1
    decreases |text|
  {
    hide *;
    DigitsFew(zeros);
    DigitsBelow(zeros);
    AlphabetSize(list, bytes);
    if text == [] {
      EncodeEnd(list, bytes, zeros);
      WholeEnd(RunDigits(zeros), bytes);
    } else {
      var k := Symbols.Place(list, bytes, text[0]);
      EncodeStep(text, list, bytes, zeros, k);
      if k == 0 {
        EncodeWhole(text[1..], list, bytes, zeros + 1);
      } else {
        var after := EncodeFrom(text[1..], ToFront(list, k), bytes, 0);
        EncodeWhole(text[1..], ToFront(list, k), bytes, 0);
        WholeAfter(RunDigits(zeros), k + 1, after, bytes);
      }
    }
  }

  lemma {:induction false} DigitsBelow(n: nat)
    ensures forall i :: 0 <= i < |RunDigits(n)| ==> RunDigits(n)[i] <= RUNB
  {
  }

  lemma {:induction false} AlphabetSize(list: Text, bytes: Text)
    requires Alphabet(list, bytes)
    ensures bytes != [] && |bytes| <= |list|
  {
  }

  lemma {:induction false} EncodeEnd(list: Text, bytes: Text, zeros: nat)
    requires Alphabet(list, bytes) && Reaches(list, bytes)
    ensures EncodeFrom([], list, bytes, zeros) == RunDigits(zeros) + [|bytes| + 1]
  {
  }

  lemma {:induction false} EncodeStep(text: Text, list: Text, bytes: Text, zeros: nat, k: nat)
    requires Alphabet(list, bytes) && Reaches(list, bytes) && text != [] && forall i :: 0 <= i < |text| ==> text[i] in bytes
    requires k == Symbols.Place(list, bytes, text[0])
    ensures k < |bytes| && Alphabet(ToFront(list, k), bytes) && Reaches(ToFront(list, k), bytes)
    ensures EncodeFrom(text, list, bytes, zeros)
         == if k == 0 then EncodeFrom(text[1..], list, bytes, zeros + 1)
            else RunDigits(zeros) + [k + 1] + EncodeFrom(text[1..], ToFront(list, k), bytes, 0)
  {
    hide RunDigits, ToFront, Reaches, Symbols.Place;
    ReachesKept(list, bytes, k);
  }

  lemma {:induction false} WholeEnd(d: seq<nat>, bytes: Text)
    requires (forall i :: 0 <= i < |d| ==> d[i] <= RUNB) && bytes != []
    ensures Whole(d + [|bytes| + 1], bytes)
  {
  }

  lemma {:induction false} WholeAfter(d: seq<nat>, x: nat, after: seq<nat>, bytes: Text)
    requires (forall i :: 0 <= i < |d| ==> d[i] <= RUNB) && bytes != [] && x <= |bytes| && Whole(after, bytes)
    ensures Whole(d + [x] + after, bytes)
  {
    var s := d + [x] + after;
    forall i | 0 <= i < |s| - 1 ensures s[i] <= |bytes| {
      if i > |d| { assert s[i] == after[i - |d| - 1]; }
    }
    assert s[|s| - 1] == after[|after| - 1];
  }

  lemma {:induction false} DigitsFew(n: nat)
    ensures |RunDigits(n)| <= n
  {
    if n != 0 { DigitsFew((n - 1) / 2); }
  }

  /** Nine bits are enough for every symbol. */
  function Nines(n: nat): (s: Text)
    ensures |s| == n && forall i :: 0 <= i < n ==> s[i] == 9
  {
    seq(n, _ => 9)
  }

  lemma {:induction false} NinesFit(n: nat)
    ensures KraftSum(Nines(n)) == n * 2048
  {
    if n != 0 {
      assert Nines(n)[..n - 1] == Nines(n - 1);
      NinesFit(n - 1);
      Pow2Values();
      Pow2Add(8, 3);
    }
  }

  lemma {:induction false} NinesAreCodes(n: nat)
    requires 0 < n <= 258
    ensures Codes(Nines(n))
  {
    hide KraftSum;
    NinesFit(n);
    Pow2Values();
  }

  function Occurring(l: Text): (u: InUse)
    ensures forall c :: 0 <= c < 256 ==> (u[c] <==> c in l)
  {
    seq(256, c requires 0 <= c < 256 => c in l)
  }

  /** A layout of the block l with start row orig, in two codes of nine bits. */
  ghost function PlainLayout(l: Text, orig: nat, crc: Word): Layout
    requires l != []
  {
    var u := Occurring(l);
    var bytes := UsedBelow(u, 256);
    OccurringUsed(l);
    AllReached(bytes);
    var syms := EncodeFrom(l, Identity(256), bytes, 0);
    Layout(crc, false, orig, u, seq((|syms| + 49) / 50, _ => 0), [Nines(|bytes| + 2), Nines(|bytes| + 2)], syms)
  }

  lemma {:induction false} OccurringUsed(l: Text)
    requires l != []
    ensures UsedBelow(Occurring(l), 256) != [] && |UsedBelow(Occurring(l), 256)| <= 256
    ensures forall i :: 0 <= i < |l| ==> l[i] in UsedBelow(Occurring(l), 256)
  {
    UsedExactly(Occurring(l), 256);
    assert l[0] in UsedBelow(Occurring(l), 256);
  }

  lemma {:induction false} AllReached(bytes: Text)
    requires 1 <= |bytes| <= 256
    ensures Alphabet(Identity(256), bytes) && Reaches(Identity(256), bytes)
  {
    forall i: Byte | i < |bytes| ensures i in Identity(256)[..|bytes|] {
      assert Identity(256)[..|bytes|][i] == i;
    }
  }

  lemma {:induction false} PlainOk(l: Text, orig: nat, crc: Word)
    requires 0 < |l| <= 900000 && orig < |l|
    ensures PlainLayout(l, orig, crc).Ok()
    ensures forall max: nat :: |l| <= max < 0x8000_0000 ==> PlainLayout(l, orig, crc).Block(max) == Done(l, NoLoss())
  {
    hide Codes, EncodeFrom, DecodeFrom, UsedBelow, Reaches;
    var b := PlainLayout(l, orig, crc);
    var bytes := b.Bytes();
    OccurringUsed(l);
    AllReached(bytes);
    EncodeWhole(l, Identity(256), bytes, 0);
    NinesAreCodes(|bytes| + 2);
    forall max: nat | |l| <= max < 0x8000_0000 ensures b.Ok() && b.Block(max) == Done(l, NoLoss()) {
      DecodeEncodeBlock(l, Identity(256), bytes, 0, [], max);
      assert [] + Repeat(bytes[Identity(256)[0]], 0) + l == l;
    }
  }

  /** Every text that fits a block has a layout, whatever CRC is stored with it. */
  lemma {:induction false} TextCarried(rNums: RandNums, size: nat, data: Text, crc: Word) returns (p: Part)
    requires 1 <= size <= 9 && data != [] && |Encode(data)| <= 100000 * size
    ensures p.data == data && p.Carries(rNums, size) && p.layout.crc == crc
  {
    hide Layout.Ok, Layout.Block, PlainLayout, IsTransform, CrcOf, Expand, WellFormed, Encode;
    EncodeHead(data);
    var l, orig := TransformExists(Encode(data));
    TransformSize(Encode(data), l, orig);
    PlainOk(l, orig, crc);
    p := Part(PlainLayout(l, orig, crc), data);
    PlainIs(l, orig, crc);
    assert p.layout.Block(100000 * size) == Done(l, NoLoss());
    BlockIsText(FeedFor(rNums, l, orig, false), Encode(data));
    ExpandEncode(data);
  }

  lemma {:induction false} PlainIs(l: Text, orig: nat, crc: Word)
    requires l != []
    ensures var b := PlainLayout(l, orig, crc); b.crc == crc && !b.randomised && b.origPtr == orig
  {
    hide EncodeFrom, UsedBelow;
  }

  lemma {:induction false} TransformSize(s: Text, l: Text, orig: nat)
    requires IsTransform(s, l, orig)
    ensures |l| == |s| && orig < |l|
  {
  }
}
