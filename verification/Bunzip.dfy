/** BZ2_bzDecompress: parsing and output in turn, block after block, with the CRC of each
    and of all. A stream in any pieces, to buffers of any sizes, comes out as its data, or
    up to where it is wrong. */
module Bunzip {
  import opened Bits
  import opened BwtSpec
  import opened InverseBwt
  import opened BitString
  import opened BitStream
  import opened RunLength
  import opened BlockOutput
  import opened Crc
  import opened Randomise
  import opened Symbols
  import opened Parser
  import opened Suspension
  import opened SymbolLoop
  import opened BlockBits
  import opened StreamFormat

  // --------------------------------------------- where the parser is going

  /** What is ahead: blocks, the end, and what lies behind it. */
  datatype Course = Course(rNums: RandNums, size: nat, parts: Parts, end: Ending, pad: seq<Bit>)
  {
    ghost predicate Ok() {
      1 <= size <= 9 && AllCarry(rNums, size, parts) && EndOk(size, parts, end)
    }

    /** From the head of the first block on. */
    ghost function Bits(): seq<Bit>
      requires Ok()
    {
      TailBits(rNums, size, parts, end) + pad
    }

    ghost function Stream(): seq<Bit>
      requires Ok()
    {
      StreamBits(rNums, size, parts, end) + pad
    }

    /** When the first block is behind. */
    function Rest(): Course
      requires parts != []
    {
      this.(parts := parts[1..])
    }
  }

  /** The machine has stopped where the course says: before the output of the first block,
      or at the end, with the rest unread, or at something wrong. */
  ghost predicate Arrives(s: State, left: seq<Bit>, a: Course)
    requires a.Ok()
  {
    if a.parts != [] then RestOk(a); s.at == Output && Came(a.parts[0].layout, a.size, s) && left == a.Rest().Bits()
    else
      match a.end
      case Closed(stored) => s.at == StreamEnd && s.f.storedCombinedCRC == stored && left == a.pad
      case Torn(_) => s.at == BadData
      case Alien(_) => s.at == BadMagic
  }

  lemma {:induction false} RestOk(a: Course)
    requires a.Ok() && a.parts != []
    ensures a.Rest().Ok() && a.parts[0].Carries(a.rNums, a.size) && a.parts[0].layout.Ok() && !a.end.Alien?
    ensures a.Bits() == a.parts[0].layout.Bits() + a.Rest().Bits()
  {
    hide Part.Carries, StopsAt, State.Valid, Layout.Bits, Layout.Ok, EndBits, Begins, FeedFor;
    assert a.parts[0].Carries(a.rNums, a.size);
    CarriesIs(a.parts[0], a.rNums, a.size);
    assert a.parts[0].layout.Bits() + TailBits(a.rNums, a.size, a.parts[1..], a.end) + a.pad
        == a.parts[0].layout.Bits() + (TailBits(a.rNums, a.size, a.parts[1..], a.end) + a.pad);
  }

  lemma {:induction false} CarriesIs(p: Part, rNums: RandNums, size: nat)
    requires p.Carries(rNums, size)
    ensures p.layout.Ok()
    ensures var o := p.layout.Block(100000 * size);
      && o.Done? && o.lost == NoLoss() && p.layout.origPtr < |o.text| <= 100000 * size
      && var b := FeedFor(rNums, o.text, p.layout.origPtr, p.layout.randomised).Block();
      && WellFormed(b) && Expand(b) == p.data
  {
    hide Layout.Ok, Layout.Block, WellFormed, Expand, FeedFor, Feed.Block;
    BlockFits(p.layout, 100000 * size);
  }

  /** The block that has come is the one of the layout. */
  lemma {:induction false} CameIs(s: State, left: seq<Bit>, a: Course)
    requires a.Ok() && a.parts != [] && Arrives(s, left, a)
    ensures a.Rest().Ok() && a.parts[0].layout.Ok() && left == a.Rest().Bits()
    ensures var b, o := a.parts[0].layout, a.parts[0].layout.Block(100000 * a.size);
      && o.Done? && s.f.block == o.text && s.f.origPtr == b.origPtr && s.f.randomised == b.randomised
      && s.f.storedBlockCRC == b.crc && s.f.blockSize100k == a.size && Tally(s.f.unzftab, o.text, NoLoss())
  {
    hide Course.Ok, Course.Bits, Layout.Ok, Layout.Block, Tally, Part.Carries;
    RestOk(a);
    CarriesIs(a.parts[0], a.rNums, a.size);
  }

  /** It will, given left. */
  ghost predicate Heading(x: Machine, left: seq<Bit>, a: Course)
    requires a.Ok()
  {
    && Sound(x)
    && forall junk: Junk :: Arrives(RunLive(Wake(x, junk), left).0, RunLive(Wake(x, junk), left).1, a)
  }

  lemma {:induction false} HeadingAt(x: Machine, left: seq<Bit>, a: Course, junk: Junk)
    requires a.Ok() && Heading(x, left, a)
    ensures Wake(x, junk).Valid() && Arrives(RunLive(Wake(x, junk), left).0, RunLive(Wake(x, junk), left).1, a)
  {
    hide State.Valid, RunLive, Arrives, Course.Ok;
  }

  lemma {:induction false} ArrivesSame(s: State, s': State, left: seq<Bit>, a: Course)
    requires a.Ok() && Arrives(s, left, a) && Sleep(s) == Sleep(s')
    ensures Arrives(s', left, a)
  {
    hide Layout.Ok, Layout.Block, Course.Bits, Course.Ok, Tally;
  }

  /** From the head of a block. */
  lemma {:induction false} HeadArrives(s: State, a: Course)
    requires a.Ok() && !a.end.Alien? && s.Valid() && s.at == BlkHdr(1) && s.f.blockSize100k == a.size
    ensures var r := RunLive(s, a.Bits()); Arrives(r.0, r.1, a)
  {
    hide *;
    if a.parts != [] {
      RestOk(a);
      var b := a.parts[0].layout;
      var s' := BlockTaken(b, a.size, s);
      ComesAt(s, b.Bits(), s', a.Rest().Bits());
      BlockArrives(s', a);
    } else {
      EndIs(a);
      match a.end {
        case Closed(stored) =>
          var s' := TrailerTaken(s, stored);
          ComesAt(s, EndBits(a.end), s', a.pad);
          EndArrives(s', a);
        case Torn(bits) =>
          TornStops(s, a);
          TornArrives(RunLive(s, a.Bits()).0, RunLive(s, a.Bits()).1, a);
      }
    }
  }

  lemma {:induction false} EndIs(a: Course)
    requires a.Ok() && a.parts == []
    ensures a.Bits() == EndBits(a.end) + a.pad
    ensures a.end.Closed? ==> EndBits(a.end) == BitsOfText(TrailerFrom(1)) + BitsOfText(BytesOf(a.end.stored, 4))
  {
    hide AllCarry, EndOk;
  }

  lemma {:induction false} EndArrives(s: State, a: Course)
    requires a.Ok() && a.parts == [] && a.end.Closed? && s.at == StreamEnd && s.f.storedCombinedCRC == a.end.stored
    ensures Arrives(s, a.pad, a) && !s.at.BadData?
  {
    hide Course.Ok;
  }

  lemma {:induction false} TornStops(s: State, a: Course)
    requires a.Ok() && a.parts == [] && a.end.Torn? && s.Valid() && s.at == BlkHdr(1) && s.f.blockSize100k == a.size
    ensures RunLive(s, a.Bits()).0.at == BadData
  {
    hide State.Valid, RunLive, AllCarry;
    EndIs(a);
    assert StopsAt(s, a.end.bits, BadData);
    assert a.Bits() == a.end.bits + a.pad;
  }

  lemma {:induction false} TornArrives(s: State, left: seq<Bit>, a: Course)
    requires a.Ok() && a.parts == [] && a.end.Torn? && s.at == BadData
    ensures Arrives(s, left, a)
  {
    hide Course.Ok;
  }

  lemma {:induction false} BlockArrives(s: State, a: Course)
    requires a.Ok() && a.parts != [] && a.parts[0].layout.Ok() && Came(a.parts[0].layout, a.size, s)
    ensures a.Rest().Ok() && Arrives(s, a.Rest().Bits(), a) && !s.at.BadData?
  {
    hide Layout.Ok, Layout.Block, Tally, Course.Ok, Course.Bits, Part.Carries;
    RestOk(a);
    CarriesIs(a.parts[0], a.rNums, a.size);
  }

  /** A machine at the head of a block has the rest of the stream before it. */
  lemma {:induction false} NewHeading(x: Machine, a: Course)
    requires a.Ok() && !a.end.Alien? && Sound(x) && x.at == BlkHdr(1) && x.f.blockSize100k == a.size
    ensures Heading(x, a.Bits(), a)
  {
    hide State.Valid, RunLive, Arrives, Course.Ok, Course.Bits;
    forall junk: Junk
      ensures var r := RunLive(Wake(x, junk), a.Bits()); Arrives(r.0, r.1, a)
    {
      HeadArrives(Wake(x, junk), a);
    }
  }

  /** And a new one the whole stream. */
  lemma {:induction false} WholeHeading(x: Machine, a: Course)
    requires a.Ok() && Sound(x) && x.at == Magic(1)
    ensures Heading(x, a.Stream(), a)
  {
    hide State.Valid, RunLive, Arrives, Course.Ok, Course.Stream;
    forall junk: Junk
      ensures var r := RunLive(Wake(x, junk), a.Stream()); Arrives(r.0, r.1, a)
    {
      WholeArrives(Wake(x, junk), a);
    }
  }

  lemma {:induction false} WholeArrives(s: State, a: Course)
    requires a.Ok() && s.Valid() && s.at == Magic(1)
    ensures var r := RunLive(s, a.Stream()); Arrives(r.0, r.1, a)
  {
    hide *;
    StreamIs(a);
    if a.end.Alien? {
      MagicOnly(s, 1, a.end.head);
      AlienStops(s, a);
    } else {
      var s' := MagicTaken(s, 1, a.size);
      TakesAt(s, BitsOfText(MagicFrom(1, a.size)), s', a.Bits());
      HeadArrives(s', a);
    }
  }

  lemma {:induction false} StreamIs(a: Course)
    requires a.Ok()
    ensures 1 <= a.size <= 9
    ensures !a.end.Alien? ==> a.Stream() == BitsOfText(MagicFrom(1, a.size)) + a.Bits()
    ensures a.end.Alien? ==> |a.end.head| == 4 && !Begins(1, a.end.head) && a.Stream() == BitsOfText(a.end.head) + a.pad
  {
    hide AllCarry, StopsAt, Begins, State.Valid, TailBits, BitsOfText;
    if !a.end.Alien? {
      var m, t := BitsOfText(MagicFrom(1, a.size)), TailBits(a.rNums, a.size, a.parts, a.end);
      assert m + t + a.pad == m + (t + a.pad);
    }
  }

  lemma {:induction false} AlienStops(s: State, a: Course)
    requires a.Ok() && a.end.Alien? && StopsAt(s, BitsOfText(a.end.head), BadMagic) && a.Stream() == BitsOfText(a.end.head) + a.pad
    ensures var r := RunLive(s, a.Stream()); Arrives(r.0, r.1, a)
  {
    hide State.Valid, RunLive, AllCarry, BitsOfText, Begins;
  }

  /** A call of the parser with part of the input: it has arrived, or is still heading
      there. */
  lemma {:induction false} Fed(x: Machine, stream: seq<Bit>, future: seq<Bit>, x': Machine, stream': seq<Bit>, a: Course)
    requires a.Ok() && Heading(x, stream + future, a) && Sound(x')
    requires forall junk: Junk :: Leads(x, junk, stream, x', stream')
    ensures x'.at.Stopped() ==> forall junk: Junk :: Arrives(Wake(x', junk), stream' + future, a)
    ensures !x'.at.Stopped() ==> future != [] && Heading(x', stream' + future, a)
  {
    hide *;
    var j := Junk(0, 0, 0);
    HeadingAt(x, stream + future, a, j);
    var s1 := LedTo(x, j, stream, x', stream');
    RunResume(Wake(x, j), stream, future);
    var left := stream' + future;
    if x'.at.Stopped() {
      SleepAt(s1);
      RunStops(s1, left);
      forall junk: Junk ensures Arrives(Wake(x', junk), left, a) {
        SleepWake(x', junk);
        ArrivesSame(s1, Wake(x', junk), left, a);
      }
    } else {
      if future == [] {
        assert stream + future == stream;
        SleepAt(s1);
        ArrivedStops(s1, stream', a);
      }
      forall junk: Junk ensures Wake(x', junk).Valid()
        && Arrives(RunLive(Wake(x', junk), left).0, RunLive(Wake(x', junk), left).1, a)
      {
        SoundAt(x', junk);
        SleepWake(x', junk);
        RunSame(s1, Wake(x', junk), left);
        ArrivesSame(RunLive(s1, left).0, RunLive(Wake(x', junk), left).0, RunLive(s1, left).1, a);
      }
      NowHeading(x', left, a);
    }
  }

  lemma {:induction false} NowHeading(x: Machine, left: seq<Bit>, a: Course)
    requires a.Ok() && Sound(x)
    requires forall junk: Junk ::
      Wake(x, junk).Valid() && Arrives(RunLive(Wake(x, junk), left).0, RunLive(Wake(x, junk), left).1, a)
    ensures Heading(x, left, a)
  {
    hide State.Valid, RunLive, Arrives, Course.Ok, Sound;
  }

  lemma {:induction false} LedTo(x: Machine, j: Junk, stream: seq<Bit>, x': Machine, stream': seq<Bit>) returns (s1: State)
    requires Leads(x, j, stream, x', stream')
    ensures Wake(x, j).Valid() && s1.Valid() && RunLive(Wake(x, j), stream) == (s1, stream') && Sleep(s1) == x'
  {
    hide State.Valid;
    s1 := RunLive(Wake(x, j), stream).0;
  }

  lemma {:induction false} SleepAt(s: State)
    ensures Sleep(s).at == s.at
  {
  }

  lemma {:induction false} ArrivedStops(s: State, left: seq<Bit>, a: Course)
    requires a.Ok() && Arrives(s, left, a)
    ensures s.at.Stopped()
  {
    hide Course.Ok, Course.Bits;
  }

  lemma {:induction false} ArrivedAt(s: State, left: seq<Bit>, a: Course)
    requires a.Ok() && Arrives(s, left, a)
    ensures a.parts != [] ==> s.at == Output
    ensures a.parts == [] && a.end.Closed? ==> s.at == StreamEnd && s.f.storedCombinedCRC == a.end.stored
    ensures a.parts == [] && a.end.Torn? ==> s.at == BadData
    ensures a.parts == [] && a.end.Alien? ==> s.at == BadMagic
  {
    hide Course.Ok, Course.Bits;
  }

  // ----------------------------------------------------------- the whole decoder

  /** What has come out of a block of data when rest is still to come. */
  ghost predicate Sofar(table: CrcTable, data: Text, rest: Text, crc: Word) {
    && |rest| <= |data| && rest == data[|data| - |rest|..]
    && crc == CrcOf(table, 0xffff_ffff, data[..|data| - |rest|])
  }

  /** The decoder. ahead is what is not complete, rest what is to come of the first block
      if it has been parsed; future are the bits not yet supplied. */
  class BzStream {
    const parser: Decompressor
    const d: DState
    var combined: Word

    ghost var ahead: Course
    ghost var rest: Text
    ghost var future: seq<Bit>

    constructor (small: bool, rNums: RandNums, crcTable: CrcTable, ghost course: Course)
      requires course.Ok() && course.rNums == rNums
      ensures Valid() && parser.at == Magic(1) && Todo() == Yield(course.parts) && d.written == []
      ensures Outcome() == Verdict(0, course.parts, course.end)
      ensures future == course.Stream() && d.crcTable == crcTable
      ensures fresh(parser) && fresh(parser.reader) && fresh(Arrays())
    {
      hide *;
      parser := new Decompressor();
      d := new DState(small, BLOCK_MAX, rNums, crcTable);
      combined := 0;
      ahead, rest := course, [];
      future := course.Stream();
      new;
      NowFitted();
      Begun();
      ArraysAre();
    }

    lemma {:induction false} ArraysAre()
      ensures Arrays() == {d, d.tt, d.ll.ll16, d.ll.ll4, d.cftab, d.cftabCopy, d.unzftab}
    {
    }

    lemma {:induction false} NowFitted()
      requires d.Shaped() && d.ll.Valid() && d.tt != d.ll.ll16 && d.tt != d.ll.ll4
      requires d.tt.Length == d.ll.ll16.Length == BLOCK_MAX
      ensures Fitted()
    {
    }

    /** A new decoder has the whole stream before it. */
    lemma {:induction false} Begun()
      requires Fitted() && parser.Valid() && parser.at == Magic(1) && parser.reader.Stream() == [] && combined == 0
      requires ahead.Ok() && ahead.rNums == d.rNums && future == ahead.Stream()
      ensures Valid() && Todo() == Yield(ahead.parts) && Outcome() == Verdict(0, ahead.parts, ahead.end)
    {
      hide Heading, Course.Ok, Course.Stream, Fitted, BitReader.Valid, Sound, Yield, Verdict;
      ParserParts();
      assert parser.reader.Stream() + future == future;
      WholeHeading(parser.Now(), ahead);
    }

    lemma {:induction false} ParserParts()
      requires parser.Valid()
      ensures parser.reader.Valid() && Sound(parser.Now()) && parser.Now() == Machine(parser.at, parser.f, parser.save)
    {
    }

    ghost function Arrays(): set<object> {
      {d, d.tt, d.ll.ll16, d.ll.ll4, d.cftab, d.cftabCopy, d.unzftab}
    }

    /** The arrays of d are its own, and hold the largest block. */
    ghost predicate Fitted()
      reads d.ll.ll16, d.ll.ll4
    {
      && d.Shaped() && d.ll.Valid() && d.tt != d.ll.ll16 && d.tt != d.ll.ll4
      && BLOCK_MAX == d.tt.Length == d.ll.ll16.Length
    }

    ghost predicate Valid()
      reads this, parser, parser.reader, d, d.tt, d.ll.ll16, d.ll.ll4, d.cftab
    {
      && Fitted() && parser.Valid() && ahead.Ok() && ahead.rNums == d.rNums
      && if parser.at == Output then Outputting() && Beyond(parser.reader.Stream() + future)
         else Heading(parser.Now(), parser.reader.Stream() + future, ahead)
    }

    /** The first block has been parsed, and rest of it is to come out. */
    ghost predicate Outputting()
      reads `ahead, `rest, parser`f, d, d.tt, d.ll.ll16, d.ll.ll4, d.cftab
      ensures Outputting() ==> ahead.parts != []
    {
      && ahead.parts != [] && d.Valid() && d.Owes(rest) && Sofar(d.crcTable, ahead.parts[0].data, rest, d.calculatedBlockCRC)
      && parser.f.storedBlockCRC == ahead.parts[0].layout.crc && parser.f.blockSize100k == ahead.size
    }

    /** What follows the block being output. */
    ghost predicate Beyond(left: seq<Bit>)
      requires ahead.Ok() && ahead.parts != []
      reads `ahead
    {
      RestOk(ahead);
      left == ahead.Rest().Bits()
    }

    /** What will still come out. */
    ghost function Todo(): Text
      reads `ahead, `rest, parser`at
    {
      if parser.at == Output && ahead.parts != [] then
        rest + if ahead.parts[0].Checks() then Yield(ahead.parts[1..]) else []
      else Yield(ahead.parts)
    }

    /** How the stream will be reported to end. */
    ghost function Outcome(): Code
      reads `ahead, `combined
    {
      Verdict(combined, ahead.parts, ahead.end)
    }

    // What a call needs to know, and what makes it true again.

    lemma {:induction false} ValidParts()
      requires Valid()
      ensures Fitted() && parser.Valid() && ahead.Ok() && ahead.rNums == d.rNums
      ensures parser.at == Output ==> Outputting() && Beyond(parser.reader.Stream() + future)
      ensures parser.at != Output ==> Heading(parser.Now(), parser.reader.Stream() + future, ahead)
    {
      hide Fitted, Heading, Course.Ok, Outputting, Beyond, Decompressor.Valid;
    }

    lemma {:induction false} NowValid()
      requires Fitted() && parser.Valid() && ahead.Ok() && ahead.rNums == d.rNums
      requires if parser.at == Output then Outputting() && Beyond(parser.reader.Stream() + future)
        else Heading(parser.Now(), parser.reader.Stream() + future, ahead)
      ensures Valid()
    {
      hide Fitted, Heading, Course.Ok, Outputting, Beyond, Decompressor.Valid;
    }

    /** More of the input arrives. */
    method Supply(piece: Text)
      requires Valid() && BitsOfText(piece) <= future
      modifies parser.reader, `future
      ensures Valid() && future == old(future)[|BitsOfText(piece)|..] && Todo() == old(Todo()) && Outcome() == old(Outcome())
    {
      hide *;
      ValidParts();
      ParserParts();
      ghost var bits, stream := BitsOfText(piece), parser.reader.Stream();
      parser.reader.Supply(piece);
      future := future[|bits|..];
      assert stream + old(future) == stream + bits + future;
      ParserStill();
      NowValid();
    }

    lemma {:induction false} ParserStill()
      requires parser.reader.Valid() && Sound(parser.Now())
      ensures parser.Valid()
    {
      hide Sound;
    }

    /** A block has come out: its CRC is compared and added to the others, and the next
        header is looked for. */
    method EndBlock() returns (ok: bool)
      requires Valid() && parser.at == Output && rest == []
      modifies `combined, `ahead, parser`at, d`calculatedBlockCRC
      ensures ok ==> Valid() && parser.at == BlkHdr(1) && old(ahead.parts) != [] && ahead == old(ahead).Rest()
      ensures ok ==> Todo() == old(Todo()) && Outcome() == old(Outcome())
      ensures !ok ==> old(Outcome()) == BzDataError && old(Todo()) == [] && Todo() == []
    {
      hide *;
      ValidParts();
      BlockRight();
      d.calculatedBlockCRC := 0xffff_ffff - d.calculatedBlockCRC;
      ok := d.calculatedBlockCRC == parser.f.storedBlockCRC;
      if !ok { return; }
      ParserParts();
      RestOk(ahead);
      ghost var x := parser.Now();
      HeadSound(x);
      CombineIs(combined, d.calculatedBlockCRC);
      combined := Xor(Or(combined * 2 % 0x1_0000_0000, combined / 0x8000_0000), d.calculatedBlockCRC);
      ahead := ahead.Rest();
      parser.at := BlkHdr(1);
      SoundNow(x);
      NewHeading(parser.Now(), ahead);
      RestIs(ahead);
      ParserStill();
      NowValid();
      TodoIs();
    }

    lemma {:induction false} BlockRight()
      requires ahead.Ok() && Outputting() && Beyond(parser.reader.Stream() + future) && rest == [] && parser.at == Output
      ensures ahead.parts != [] && parser.f.blockSize100k == ahead.size
      ensures 0xffff_ffff - d.calculatedBlockCRC == BlockCrcOf(ahead.parts[0].data)
      ensures ahead.Rest().Ok() && parser.reader.Stream() + future == ahead.Rest().Bits()
      ensures ahead.Rest() == ahead.(parts := ahead.parts[1..])
      ensures ahead.parts[0].Checks() <==> BlockCrcOf(ahead.parts[0].data) == parser.f.storedBlockCRC
      ensures if ahead.parts[0].Checks() then
          Todo() == Yield(ahead.parts[1..])
          && Outcome() == Verdict(Combine(combined, BlockCrcOf(ahead.parts[0].data)), ahead.parts[1..], ahead.end)
        else Todo() == [] && Outcome() == BzDataError
    {
      hide *;
      OutputParts();
      RestOk(ahead);
      BeyondIs(parser.reader.Stream() + future);
      BlockCrcIs(d.crcTable, ahead.parts[0].data);
      AllOut(ahead.parts[0].data);
      FirstVerdict();
    }

    lemma {:induction false} BeyondIs(left: seq<Bit>)
      requires ahead.Ok() && ahead.parts != [] && Beyond(left)
      ensures ahead.Rest().Ok() && left == ahead.Rest().Bits() && ahead.Rest() == ahead.(parts := ahead.parts[1..])
    {
      hide Course.Ok, Course.Bits;
      RestOk(ahead);
    }

    lemma {:induction false} AllOut(data: Text)
      requires Sofar(d.crcTable, data, [], d.calculatedBlockCRC)
      ensures d.calculatedBlockCRC == CrcOf(d.crcTable, 0xffff_ffff, data)
    {
      hide CrcOf;
      assert data[..|data| - 0] == data;
    }

    lemma {:induction false} FirstVerdict()
      requires ahead.parts != [] && rest == [] && parser.at == Output && parser.f.storedBlockCRC == ahead.parts[0].layout.crc
      ensures ahead.parts[0].Checks() <==> BlockCrcOf(ahead.parts[0].data) == parser.f.storedBlockCRC
      ensures if ahead.parts[0].Checks() then
          Todo() == Yield(ahead.parts[1..])
          && Outcome() == Verdict(Combine(combined, BlockCrcOf(ahead.parts[0].data)), ahead.parts[1..], ahead.end)
        else Todo() == [] && Outcome() == BzDataError
    {
      hide BlockCrcOf, Combine;
      assert [] + Yield(ahead.parts[1..]) == Yield(ahead.parts[1..]);
    }

    lemma {:induction false} RestIs(a: Course)
      requires ahead == a && parser.at == BlkHdr(1)
      ensures Todo() == Yield(a.parts) && Outcome() == Verdict(combined, a.parts, a.end)
    {
      hide Yield, Verdict;
    }

    lemma {:induction false} SoundNow(x: Machine)
      requires Sound(x.(at := BlkHdr(1))) && parser.at == BlkHdr(1) && parser.f == x.f && parser.save == x.save
      ensures parser.Now() == x.(at := BlkHdr(1)) && Sound(parser.Now()) && parser.Now().at == BlkHdr(1) && parser.Now().f == parser.f
    {
      hide Sound;
    }

    /** tt or ll16, and unzftab, as the symbol loop has filled them. */
    method Load(block: Text, counts: seq<int>)
      requires Fitted() && |block| <= BLOCK_MAX && Histogram(counts, block)
      modifies d.tt, d.ll.ll16, d.unzftab
      ensures Fitted() && d.Received(block)
    {
      hide Count, BLOCK_MAX;
      for i := 0 to |block|
        invariant d.ll.Valid()
        invariant forall j :: 0 <= j < i ==> if d.small then d.ll.ll16[j] == block[j] else d.tt[j] == block[j]
      {
        if d.small { d.ll.ll16[i] := block[i]; } else { d.tt[i] := block[i]; }
      }
      for c := 0 to 256
        invariant forall b :: 0 <= b < c ==> d.unzftab[b] == counts[b]
        modifies d.unzftab
      {
        d.unzftab[c] := counts[c];
      }
      assert d.unzftab[..] == counts;
    }

    /** The block that has just been parsed is the one its layout describes. */
    lemma {:induction false} BlockParsed()
      requires ahead.Ok() && parser.at == Output && ahead.parts != []
      requires forall junk: Junk :: Arrives(Wake(parser.Now(), junk), parser.reader.Stream() + future, ahead)
      ensures var f, p := parser.f, ahead.parts[0];
        && 0 <= f.origPtr < |f.block| <= BLOCK_MAX && Histogram(f.unzftab, f.block)
        && f.storedBlockCRC == p.layout.crc && f.blockSize100k == ahead.size
        && var b := FeedFor(ahead.rNums, f.block, f.origPtr, f.randomised).Block();
        && WellFormed(b) && Expand(b) == p.data
      ensures Beyond(parser.reader.Stream() + future)
    {
      hide *;
      var s := Wake(parser.Now(), Junk(0, 0, 0));
      RestOk(ahead);
      CarriesIs(ahead.parts[0], ahead.rNums, ahead.size);
      assert Arrives(s, parser.reader.Stream() + future, ahead);
      CameIs(s, parser.reader.Stream() + future, ahead);
      SameFields(s);
      SizeIs(ahead);
      HistogramIff(parser.f.unzftab, parser.f.block, NoLoss());
      NothingLost();
      NowBeyond(parser.reader.Stream() + future);
    }

    lemma {:induction false} SameFields(s: State)
      requires s == Wake(parser.Now(), Junk(0, 0, 0))
      ensures s.f == parser.f
    {
    }

    lemma {:induction false} NowBeyond(left: seq<Bit>)
      requires ahead.Ok() && ahead.parts != [] && ahead.Rest().Ok() && left == ahead.Rest().Bits()
      ensures Beyond(left)
    {
      hide Course.Ok, Course.Bits;
    }

    lemma {:induction false} SizeIs(a: Course)
      requires a.Ok()
      ensures 1 <= a.size <= 9 && 100000 * a.size <= BLOCK_MAX < 0x8000_0000
    {
      hide AllCarry, EndOk;
    }

    lemma {:induction false} NothingLost()
      ensures forall c: Byte :: NoLoss()[c] % 0x1_0000_0000 == 0
    {
    }

    /** The end of BZ2_decompress for a block: it is inverted and its first byte fetched. */
    method BeginOutput()
      requires Fitted() && parser.Valid() && ahead.Ok() && ahead.rNums == d.rNums && parser.at == Output && ahead.parts != []
      requires forall junk: Junk :: Arrives(Wake(parser.Now(), junk), parser.reader.Stream() + future, ahead)
      modifies `rest, d, d.tt, d.ll.ll16, d.ll.ll4, d.cftab, d.cftabCopy, d.unzftab
      ensures Valid() && rest == ahead.parts[0].data && d.written == old(d.written) && d.availOut == old(d.availOut)
    {
      hide *;
      FittedParts();
      BlockParsed();
      ghost var data := ahead.parts[0].data;
      Load(parser.f.block, parser.f.unzftab);
      var ok := d.BeginBlock(parser.f.origPtr, |parser.f.block|, parser.f.randomised, parser.f.block);
      rest := data;
      NewBlock(parser.f.block, parser.f.origPtr, parser.f.randomised);
      NowFitted();
      NowValid();
    }

    lemma {:induction false} FittedParts()
      requires Fitted()
      ensures d.Shaped() && d.tt != d.ll.ll16 && d.tt != d.ll.ll4 && d.tt.Length == d.ll.ll16.Length == BLOCK_MAX
    {
      hide BLOCK_MAX;
    }

    /** A block just begun owes all of its data. */
    lemma {:induction false} NewBlock(l: Text, orig: nat, randomised: bool)
      requires ahead.parts != [] && rest == ahead.parts[0].data && ahead.rNums == d.rNums
      requires d.Valid() && orig < |l| && d.source.feed == d.FeedOf(l, orig, randomised) && d.stateOutLen == 0 && d.nblockUsed == 1
      requires d.calculatedBlockCRC == 0xffff_ffff
      requires var b := FeedFor(ahead.rNums, l, orig, randomised).Block(); WellFormed(b) && Expand(b) == ahead.parts[0].data
      requires parser.f.storedBlockCRC == ahead.parts[0].layout.crc && parser.f.blockSize100k == ahead.size
      ensures Outputting()
    {
      hide DState.Valid, DState.Owes, Expand, WellFormed, UpdateCrc, Feed.Block;
      var data := ahead.parts[0].data;
      d.OwesText(data);
      assert data[|data| - |rest|..] == data && data[..0] == [];
    }

    /** BZ2_decompress. */
    method ParseOn()
      requires Valid() && parser.at != Output
      modifies parser, parser.reader, `rest, d, d.tt, d.ll.ll16, d.ll.ll4, d.cftab, d.cftabCopy, d.unzftab
      ensures d.written == old(d.written) && d.availOut == old(d.availOut)
      ensures !parser.at.BadData? && !parser.at.BadMagic? ==> Valid()
      ensures parser.at == Output ==> ahead.parts != [] && rest == ahead.parts[0].data
      ensures parser.at == StreamEnd ==> ahead.parts == [] && ahead.end.Closed? && parser.f.storedCombinedCRC == ahead.end.stored
      ensures parser.at == BadData ==> ahead.parts == [] && ahead.end.Torn?
      ensures parser.at == BadMagic ==> ahead.parts == [] && ahead.end.Alien?
      ensures future == [] ==> parser.at == Output || parser.at == StreamEnd || parser.at == BadData || parser.at == BadMagic
    {
      hide *;
      ValidParts();
      ghost var x, stream := parser.Now(), parser.reader.Stream();
      parser.Decompress();
      ParserParts();
      Fed(x, stream, future, parser.Now(), parser.reader.Stream(), ahead);
      StopsHere();
      if parser.at == Output {
        BeginOutput();
      } else if !parser.at.BadData? && !parser.at.BadMagic? {
        NowValid();
      }
    }

    /** Where the machine can have stopped. */
    lemma {:induction false} StopsHere()
      requires ahead.Ok() && Sound(parser.Now())
      requires var left := parser.reader.Stream() + future;
        if parser.at.Stopped() then forall junk: Junk :: Arrives(Wake(parser.Now(), junk), left, ahead)
        else future != [] && Heading(parser.Now(), left, ahead)
      ensures parser.at.Stopped() <==> parser.at == Output || parser.at == StreamEnd || parser.at == BadData || parser.at == BadMagic
      ensures parser.at == Output ==> ahead.parts != []
      ensures parser.at == StreamEnd ==> ahead.parts == [] && ahead.end.Closed? && parser.f.storedCombinedCRC == ahead.end.stored
      ensures parser.at == BadData ==> ahead.parts == [] && ahead.end.Torn?
      ensures parser.at == BadMagic ==> ahead.parts == [] && ahead.end.Alien?
      ensures parser.at != Output ==> Heading(parser.Now(), parser.reader.Stream() + future, ahead)
    {
      hide Course.Ok, Arrives, State.Valid, RunLive;
      var left := parser.reader.Stream() + future;
      if parser.at.Stopped() {
        var s := Wake(parser.Now(), Junk(0, 0, 0));
        assert Arrives(s, left, ahead);
        ArrivedAt(s, left, ahead);
        forall junk: Junk ensures Wake(parser.Now(), junk).Valid()
          && RunLive(Wake(parser.Now(), junk), left) == (Wake(parser.Now(), junk), left)
        {
          SoundAt(parser.Now(), junk);
          RunStops(Wake(parser.Now(), junk), left);
        }
      }
    }

    /** The caller's buffer. */
    method Offer(room: nat)
      requires Valid()
      modifies d`availOut
      ensures Valid() && d.availOut == room
    {
      hide Heading, Course.Ok, Beyond, Decompressor.Valid, DState.Valid, DState.Owes, Sofar;
      d.availOut := room;
    }

    /** unRLE_obuf_to_output, and whether the block is complete. */
    method GiveOut() returns (finished: bool, ghost k: nat)
      requires Valid() && parser.at == Output
      modifies `rest, d`written, d`availOut, d`stateOutLen, d`stateOutCh, d`calculatedBlockCRC
      modifies d`k0, d`tPos, d`nblockUsed, d`rand
      ensures Valid() && k <= |old(rest)| && rest == old(rest)[k..] && d.written == old(d.written) + old(rest)[..k]
      ensures d.availOut == old(d.availOut) - k && (finished <==> rest == []) && (!finished ==> d.availOut == 0)
    {
      hide *;
      ValidParts();
      OutputParts();
      ghost var rest0, crc0 := rest, d.calculatedBlockCRC;
      k := d.DeliverRest(d.availOut, rest);
      rest := rest[k..];
      SofarMore(d.crcTable, ahead.parts[0].data, rest0, crc0, k, d.calculatedBlockCRC);
      finished := d.Finished();
      NowOutputting();
      NowValid();
    }

    lemma {:induction false} OutputParts()
      requires Outputting()
      ensures ahead.parts != [] && d.Valid() && d.source.feed.Valid() && d.nblockUsed >= 1 && d.Owes(rest)
      ensures Sofar(d.crcTable, ahead.parts[0].data, rest, d.calculatedBlockCRC)
      ensures parser.f.storedBlockCRC == ahead.parts[0].layout.crc && parser.f.blockSize100k == ahead.size
    {
      hide DState.Owes, Sofar;
    }

    lemma {:induction false} NowOutputting()
      requires ahead.parts != [] && d.Valid() && d.Owes(rest)
      requires Sofar(d.crcTable, ahead.parts[0].data, rest, d.calculatedBlockCRC)
      requires parser.f.storedBlockCRC == ahead.parts[0].layout.crc && parser.f.blockSize100k == ahead.size
      ensures Outputting()
    {
      hide DState.Owes, DState.Valid, Sofar;
    }

    /** What is to come out after the first block. */
    ghost function Later(): Text
      reads `ahead
    {
      if ahead.parts != [] && ahead.parts[0].Checks() then Yield(ahead.parts[1..]) else []
    }

    lemma {:induction false} TodoIs()
      ensures parser.at == Output && ahead.parts != [] ==> Todo() == rest + Later()
      ensures parser.at != Output ==> Todo() == Yield(ahead.parts)
      ensures ahead.parts == [] ==> Yield(ahead.parts) == []
      ensures ahead.parts != [] ==> Yield(ahead.parts) == ahead.parts[0].data + Later()
      ensures ahead.parts == [] && ahead.end.Closed? ==> Outcome() == if ahead.end.stored == combined then BzStreamEnd else BzDataError
      ensures ahead.parts == [] && ahead.end.Torn? ==> Outcome() == BzDataError
      ensures ahead.parts == [] && ahead.end.Alien? ==> Outcome() == BzDataErrorMagic
    {
      hide Part.Checks;
    }

    /** One round of output: what fits of the block comes out, and the block is ended if
        that is all of it. */
    method OutputRound() returns (finished: bool, ok: bool)
      requires Valid() && parser.at == Output
      modifies `combined, `ahead, `rest, parser`at
      modifies d`written, d`availOut, d`stateOutLen, d`stateOutCh, d`calculatedBlockCRC
      modifies d`k0, d`tPos, d`nblockUsed, d`rand
      ensures Gave(old(Todo()), old(d.written), old(d.availOut), Todo(), d.written, d.availOut)
      ensures ok ==> Valid() && Outcome() == old(Outcome())
      ensures !ok ==> finished && old(Outcome()) == BzDataError && Todo() == []
      ensures !finished ==> parser.at == Output && d.availOut == 0 && Todo() != []
      ensures finished && ok ==> parser.at == BlkHdr(1) && |ahead.parts| < |old(ahead.parts)|
    {
      hide *;
      TodoIs();
      ValidParts();
      OutputParts();
      ghost var rest0, t0, w0, a0 := rest, Todo(), d.written, d.availOut;
      ghost var k;
      GaveNothing(t0, w0, a0);
      finished, k := GiveOut();
      TodoIs();
      GaveMore(t0, w0, a0, t0, w0, a0, rest0, Later(), k, d.written, d.availOut);
      ok := true;
      if finished {
        ghost var before := ahead;
        ok := EndBlock();
        if ok { FewerParts(before, ahead); }
      }
    }

    /** One round of parsing: up to the next block, or as far as the input goes, or to the
        end. */
    method ParseRound() returns (more: bool, r: Code)
      requires Valid() && parser.at != Output && parser.at != StreamEnd
      modifies parser, parser.reader, `rest, d, d.tt, d.ll.ll16, d.ll.ll4, d.cftab, d.cftabCopy, d.unzftab
      ensures Todo() == old(Todo()) && Outcome() == old(Outcome()) && d.written == old(d.written) && d.availOut == old(d.availOut)
      ensures more ==> Valid() && parser.at == Output
      ensures !more && r == BzOk ==> Valid() && parser.at != StreamEnd && future != []
      ensures !more && r != BzOk ==> r == Outcome() && Todo() == [] && r != BzSequenceError
      ensures !more && r == BzStreamEnd ==> Valid() && parser.at == StreamEnd
    {
      hide *;
      TodoIs();
      more, r := false, BzOk;
      ParseOn();
      TodoIs();
      OutcomeIs(combined, ahead);
      if parser.at == StreamEnd {
        if combined != parser.f.storedCombinedCRC { return false, BzDataError; }
        return false, BzStreamEnd;
      }
      if parser.at == BadData { return false, BzDataError; }
      if parser.at == BadMagic { return false, BzDataErrorMagic; }
      more := parser.at == Output;
    }

    lemma {:induction false} FewerParts(a: Course, b: Course)
      requires a.parts != [] && b == a.Rest()
      ensures |b.parts| < |a.parts|
    {
    }

    /** BZ2_bzDecompress. Of what will still come out, as much does as there is room for,
        or as the input so far gives; and when there are room and input enough, the end or
        an error is reported, whichever it is. After an error the decoder is of no more
        use. */
    method Decompress(room: nat) returns (r: Code)
      requires Valid()
      modifies `combined, `ahead, `rest, parser, parser.reader
      modifies d, d.tt, d.ll.ll16, d.ll.ll4, d.cftab, d.cftabCopy, d.unzftab
      ensures r != BzDataError && r != BzDataErrorMagic ==> Valid()
      ensures Gave(old(Todo()), old(d.written), room, Todo(), d.written, d.availOut)
      ensures r == BzSequenceError <==> old(parser.at) == StreamEnd
      ensures r == BzSequenceError ==> parser.at == StreamEnd && Todo() == old(Todo())
      ensures r == BzOk ==> parser.at != StreamEnd && (d.availOut == 0 || future != []) && Outcome() == old(Outcome())
      ensures r == BzOk || r == BzSequenceError || (r == old(Outcome()) && Todo() == [])
      ensures r == BzStreamEnd ==> parser.at == StreamEnd
      ensures old(parser.at) != StreamEnd && future == [] && |old(Todo())| <= room ==> r == old(Outcome())
    {
      hide *;
      ghost var todo, w := Todo(), d.written;
      Offer(room);
      GaveNothing(todo, w, room);
      r := BzOk;
      if parser.at == StreamEnd { return BzSequenceError; }
      while true
        invariant Valid() && parser.at != StreamEnd && Gave(todo, w, room, Todo(), d.written, d.availOut)
        invariant Outcome() == old(Outcome())
        invariant future == [] && |todo| <= room ==> |Todo()| <= d.availOut
        decreases |ahead.parts|, if parser.at == Output then 0 else 1
      {
        TodoIs();
        if parser.at == Output {
          ghost var t0, w0, a0 := Todo(), d.written, d.availOut;
          var finished, ok := OutputRound();
          GaveTwice(todo, w, room, t0, w0, a0, Todo(), d.written, d.availOut);
          GaveLeft(todo, w, room, Todo(), d.written, d.availOut);
          if !finished { return BzOk; }
          if !ok { return BzDataError; }
          TodoIs();
        }
        var more;
        more, r := ParseRound();
        if !more { return; }
      }
    }

    lemma {:induction false} OutcomeIs(c: Word, a: Course)
      requires c == combined && a == ahead
      ensures Outcome() == Verdict(c, a.parts, a.end)
    {
      hide Verdict;
    }
  }

  /** Some end is reported. */
  lemma {:induction false} VerdictFinal(c: Word, parts: Parts, end: Ending)
    ensures Verdict(c, parts, end) != BzOk && Verdict(c, parts, end) != BzSequenceError
    decreases |parts|
  {
    hide Combine, Part.Checks;
    if parts != [] { VerdictFinal(Combine(c, BlockCrcOf(parts[0].data)), parts[1..], end); }
  }

  /** Of todo0 all but todo has been written, and the room is less by that. */
  ghost predicate Gave(todo0: Text, w0: Text, room: nat, todo: Text, w: Text, avail: nat) {
    && |todo| <= |todo0| && |todo0| - |todo| + avail == room
    && todo == todo0[|todo0| - |todo|..] && w == w0 + todo0[..|todo0| - |todo|]
  }

  lemma {:induction false} GaveNothing(todo: Text, w: Text, room: nat)
    ensures Gave(todo, w, room, todo, w, room)
  {
  }

  lemma {:induction false} GaveLeft(todo0: Text, w0: Text, room: nat, todo: Text, w: Text, avail: nat)
    requires Gave(todo0, w0, room, todo, w, avail)
    ensures |todo0| <= room ==> |todo| <= avail
  {
  }

  lemma {:induction false} GaveMore(todo0: Text, w0: Text, room: nat, todo: Text, w: Text, avail: nat,
                                    rest: Text, more: Text, k: nat, w': Text, avail': nat)
    requires Gave(todo0, w0, room, todo, w, avail) && todo == rest + more && k <= |rest| && k <= avail
    requires w' == w + rest[..k] && avail' == avail - k
    ensures Gave(todo0, w0, room, rest[k..] + more, w', avail')
  {
    var n := |todo0| - |todo|;
    assert todo0 == todo0[..n] + rest + more;
    assert todo0[n..][..k] == rest[..k];
    assert todo0[..n + k] == todo0[..n] + rest[..k];
    assert rest[k..] + more == todo0[n + k..];
  }

  lemma {:induction false} GaveTwice(todo0: Text, w0: Text, room: nat, todo1: Text, w1: Text, avail1: nat, todo2: Text, w2: Text, avail2: nat)
    requires Gave(todo0, w0, room, todo1, w1, avail1) && Gave(todo1, w1, avail1, todo2, w2, avail2)
    ensures Gave(todo0, w0, room, todo2, w2, avail2)
  {
    var n, k := |todo0| - |todo1|, |todo1| - |todo2|;
    assert todo0[n..][..k] == todo1[..k] && todo0[..n + k] == todo0[..n] + todo1[..k];
    assert todo0[n..][k..] == todo0[n + k..];
  }

  lemma {:induction false} SofarMore(table: CrcTable, data: Text, rest: Text, crc: Word, k: nat, crc': Word)
    requires Sofar(table, data, rest, crc) && k <= |rest| && crc' == CrcOf(table, crc, rest[..k])
    ensures Sofar(table, data, rest[k..], crc')
  {
    hide CrcOf;
    var n := |data| - |rest|;
    CrcAppend(table, 0xffff_ffff, data[..n], rest[..k]);
    assert data[..n] + rest[..k] == data[..n + k];
    assert rest[k..] == data[n + k..];
  }

  lemma {:induction false} HeadSound(x: Machine)
    requires Sound(x) && x.at == Output
    ensures Sound(x.(at := BlkHdr(1)))
  {
    forall junk: Junk ensures Wake(x.(at := BlkHdr(1)), junk).Valid() {
      assert Wake(x, junk).Valid();
    }
  }

  // ------------------------------------------------------------ a whole stream

  /** The pieces one after another. */
  function Glued(pieces: seq<Text>): Text {
    if pieces == [] then [] else pieces[0] + Glued(pieces[1..])
  }

  lemma {:induction false} GluedFrom(pieces: seq<Text>, i: nat)
    requires i <= |pieces|
    ensures i < |pieces| ==> BitsOfText(Glued(pieces[i..])) == BitsOfText(pieces[i]) + BitsOfText(Glued(pieces[i + 1..]))
    ensures i == |pieces| ==> BitsOfText(Glued(pieces[i..])) == []
  {
    if i < |pieces| {
      assert pieces[i..][0] == pieces[i] && pieces[i..][1..] == pieces[i + 1..];
      BitsOfTextAppend(pieces[i], Glued(pieces[i + 1..]));
    }
  }

  /** A client that supplies a stream piece by piece and offers a buffer each time: what
      comes out is the data from the front, the end or an error is reported when all of it
      is out, and a last buffer that is large enough is all it takes. */
  method Decode(small: bool, rNums: RandNums, table: CrcTable, pieces: seq<Text>, rooms: seq<nat>, ghost course: Course)
    returns (out: Text, r: Code)
    requires course.Ok() && course.rNums == rNums && |rooms| == |pieces|
    requires BitsOfText(Glued(pieces)) == course.Stream()
    ensures out <= Yield(course.parts) && (r == BzOk || (r == Verdict(0, course.parts, course.end) && out == Yield(course.parts)))
    ensures pieces != [] && rooms[|rooms| - 1] >= |Yield(course.parts)| ==> r == Verdict(0, course.parts, course.end)
  {
    hide *;
    var z := new BzStream(small, rNums, table, course);
    ghost var all, verdict := Yield(course.parts), Verdict(0, course.parts, course.end);
    VerdictFinal(0, course.parts, course.end);
    r := BzOk;
    out := [];
    assert pieces[0..] == pieces && [] + all == all;
    for i := 0 to |pieces|
      invariant z.Valid() && z.parser.at != StreamEnd && r == BzOk && z.d.written + z.Todo() == all && z.Outcome() == verdict
      invariant z.future == BitsOfText(Glued(pieces[i..])) && out == z.d.written
      invariant i == |pieces| && i > 0 ==> rooms[i - 1] < |all|
      invariant fresh(z) && fresh(z.parser) && fresh(z.parser.reader) && fresh(z.Arrays())
    {
      GluedFrom(pieces, i);
      z.Supply(pieces[i]);
      GluedFrom(pieces, i + 1);
      z.ArraysAre();
      ghost var todo, w := z.Todo(), z.d.written;
      r := z.Decompress(rooms[i]);
      GaveIs(todo, w, rooms[i], z.Todo(), z.d.written, z.d.availOut);
      out := z.d.written;
      if r != BzOk {
        assert out + [] == out;
        return;
      }
    }
  }

  lemma {:induction false} GaveIs(todo0: Text, w0: Text, room: nat, todo: Text, w: Text, avail: nat)
    requires Gave(todo0, w0, room, todo, w, avail)
    ensures w + todo == w0 + todo0
  {
    assert todo0 == todo0[..|todo0| - |todo|] + todo;
  }
}
