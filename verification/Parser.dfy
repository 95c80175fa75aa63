/** BZ2_decompress as the state machine it is: every label is a place where it may
    be left for want of input and entered again. The locals it then loses and those
    it saves are told apart. */
module Parser {
  import opened Bits
  import opened Permutations
  import opened BwtSpec
  import opened BitString
  import opened Huffman
  import opened RunLength
  import opened MoveToFront
  import opened Symbols
  import opened CodeTables

  // ------------------------------------------------------------ labels and data

  /** The three places where the symbol loop asks for a symbol; each has two labels. */
  datatype Site = First | InRun | AfterLiteral

  /** Where the machine waits, numbered as the source numbers the bytes of each
      field, or how it stopped. */
  datatype Label =
    | Magic(n: nat) | BlkHdr(n: nat) | BlockCrc(n: nat) | RandBit | OrigPtr(n: nat)
    | Mapping1 | Mapping2 | Selector1 | Selector2 | Selector3 | Coding1 | Coding2 | Coding3
    | MtfCode(site: Site) | MtfBit(site: Site) | EndHdr(n: nat) | CombinedCrc(n: nat)
    | Output | StreamEnd | BadData | BadMagic
  {
    predicate Stopped() {
      Output? || StreamEnd? || BadData? || BadMagic?
    }
  }

  const BLOCK_HEADER: seq<int> := [0x31, 0x41, 0x59, 0x26, 0x53, 0x59]
  const END_HEADER: seq<int> := [0x17, 0x72, 0x45, 0x38, 0x50, 0x90]
  const G_SIZE: int := 50

  /** What DState keeps. Of len, the rows done and the row being received; of tt or
      ll16, the bytes stored. */
  datatype Fields = Fields(
    blockSize100k: int, storedBlockCRC: int, storedCombinedCRC: int, randomised: bool, origPtr: int,
    inUse16: seq<bool>, inUse: seq<bool>, bytes: Text, selectorMtf: seq<int>, selector: seq<nat>,
    len: seq<Text>, cur: Text, tables: seq<Tables>, list: Text, unzftab: seq<int>, block: Text)

  /** The locals of BZ2_decompress. The last three are not saved; the pointers into
      the tables are rows of them, -1 for NULL. */
  datatype Locals = Locals(
    i: int, j: int, t: int, alphaSize: int, nGroups: int, nSelectors: int, eob: int, groupNo: int, groupPos: int,
    nextSym: int, nblockMAX: int, nblock: int, es: int, n: int, curr: int, zt: int, zn: int, zvec: int, zj: int,
    gSel: int, gMinlen: int, gLimit: int, gBase: int, gPerm: int,
    uc: int, minLen: int, maxLen: int)

  /** The save area. */
  datatype Saved = Saved(
    i: int, j: int, t: int, alphaSize: int, nGroups: int, nSelectors: int, eob: int, groupNo: int, groupPos: int,
    nextSym: int, nblockMAX: int, nblock: int, es: int, n: int, curr: int, zt: int, zn: int, zvec: int, zj: int,
    gSel: int, gMinlen: int, gLimit: int, gBase: int, gPerm: int)

  /** What the locals that are not saved happen to hold on entry. */
  datatype Junk = Junk(uc: int, minLen: int, maxLen: int)

  /** The save area as the first call initialises it. */
  const NOTHING_SAVED: Saved := Saved(0, 0, 0, 0, 0, 0, 0, 0, 0, 0, 0, 0, 0, 0, 0, 0, 0, 0, 0, 0, 0, -1, -1, -1)

  /** "save_state_and_return" */
  function Save(m: Locals): Saved {
    Saved(m.i, m.j, m.t, m.alphaSize, m.nGroups, m.nSelectors, m.eob, m.groupNo, m.groupPos, m.nextSym, m.nblockMAX,
          m.nblock, m.es, m.n, m.curr, m.zt, m.zn, m.zvec, m.zj, m.gSel, m.gMinlen, m.gLimit, m.gBase, m.gPerm)
  }

  /** "restore from the save area" */
  function Restore(v: Saved, junk: Junk): Locals {
    Locals(v.i, v.j, v.t, v.alphaSize, v.nGroups, v.nSelectors, v.eob, v.groupNo, v.groupPos, v.nextSym, v.nblockMAX,
           v.nblock, v.es, v.n, v.curr, v.zt, v.zn, v.zvec, v.zj, v.gSel, v.gMinlen, v.gLimit, v.gBase, v.gPerm,
           junk.uc, junk.minLen, junk.maxLen)
  }

  /** No stream, however malformed its lengths, makes the decoder look past the
      alphabet: an accepted code always names one of its symbols. */
  lemma {:induction false} AcceptedSymbol(len: Lengths, t: Tables, zn: nat, zvec: int)
    requires t.For(len) && Passed(t, zn, zvec) && zvec <= t.limit[zn]
    ensures 0 <= zvec - t.base[zn] < |len| && 0 <= t.perm[zvec - t.base[zn]] < |len|
  {
    var s := AcceptedIsCode(len, t, zn, zvec);
  }

  lemma {:induction false} AlphabetFront(list: Text, bytes: Text)
    requires Alphabet(list, bytes)
    ensures |list| == 256 && list[0] < |bytes| <= 256
  {
  }

  // --------------------------------------------------------------- the machine

  /** BZ2_decompress in the middle of a call, at a label. */
  datatype State = State(at: Label, f: Fields, m: Locals)
  {
    function Go(l: Label): State {
      this.(at := l)
    }

    // What is known at each group of labels.

    predicate InAlphabet() {
      1 <= |f.bytes| <= 256 && m.alphaSize == |f.bytes| + 2
    }

    predicate GroupsKnown() {
      InAlphabet() && 2 <= m.nGroups <= 6
    }

    predicate SelectorsKnown() {
      && GroupsKnown() && 1 <= m.nSelectors == |f.selector|
      && forall k :: 0 <= k < |f.selector| ==> f.selector[k] < m.nGroups
    }

    predicate GoodLengths(s: Text) {
      |s| == |f.bytes| + 2 && forall k :: 0 <= k < |s| ==> 1 <= s[k] <= 20
    }

    predicate LengthsSoFar() {
      && SelectorsKnown() && 0 <= m.t == |f.len| < m.nGroups && (forall k :: 0 <= k < |f.len| ==> GoodLengths(f.len[k]))
    }

    predicate RowSoFar() {
      && LengthsSoFar() && 0 <= m.i == |f.cur| < m.alphaSize && 1 <= m.curr <= 20
      && forall k :: 0 <= k < |f.cur| ==> 1 <= f.cur[k] <= 20
    }

    predicate AllLengths() {
      SelectorsKnown() && |f.len| == m.nGroups && forall k :: 0 <= k < m.nGroups ==> GoodLengths(f.len[k])
    }

    ghost predicate TablesKnown() {
      && AllLengths() && |f.tables| == m.nGroups && forall k :: 0 <= k < m.nGroups ==> f.tables[k].For(f.len[k])
    }

    predicate Receiving() {
      && Alphabet(f.list, f.bytes) && m.eob == |f.bytes| + 1 && |f.unzftab| == 256
      && 0 <= m.nblock == |f.block| <= m.nblockMAX == 100000 * f.blockSize100k
    }

    /** A group's table is at hand. */
    predicate GroupAtHand() {
      && 0 <= m.groupNo < m.nSelectors == |f.selector| && 0 <= m.groupPos < G_SIZE
      && m.gSel == m.gLimit == m.gBase == m.gPerm == f.selector[m.groupNo] < |f.tables|
      && m.gMinlen == f.tables[m.gSel].minLen
    }

    ghost predicate InCode() {
      TablesKnown() && Receiving() && GroupAtHand()
    }

    function Table(): Tables
      requires 0 <= m.gSel < |f.tables|
    {
      f.tables[m.gSel]
    }

    ghost predicate Base() {
      1 <= f.blockSize100k <= 9 && |f.inUse16| == 16 && |f.inUse| == 256
    }

    ghost predicate Valid() {
      at.BadMagic? || (Base() && AtLabel())
    }

    ghost predicate AtLabel() {
      match at
      case Magic(n) => 1 <= n <= 4 && (n == 1 ==> Save(m) == NOTHING_SAVED)
      case BlkHdr(n) => 1 <= n <= 6
      case BlockCrc(n) => 1 <= n <= 4
      case RandBit => true
      case OrigPtr(n) => 1 <= n <= 3
      case Mapping1 => 0 <= m.i < 16
      case Mapping2 => 0 <= m.i < 16 && 0 <= m.j < 16
      case Selector1 => InAlphabet()
      case Selector2 => GroupsKnown()
      case Selector3 => SelectorsSoFar()
      case Coding1 => LengthsSoFar()
      case Coding2 => RowSoFar()
      case Coding3 => RowSoFar()
      case MtfCode(_) => InCode() && m.zn == m.gMinlen
      case MtfBit(_) => InCode() && m.gMinlen < m.zn <= 21 && m.zvec >= 0 && m.zvec > Table().limit[m.zn - 1]
      case EndHdr(n) => 2 <= n <= 6
      case CombinedCrc(n) => 1 <= n <= 4
      case Output => 0 <= f.origPtr < |f.block|
      case _ => true
    }

    predicate SelectorsSoFar() {
      && GroupsKnown() && 0 <= m.i == |f.selectorMtf| < m.nSelectors && 0 <= m.j < m.nGroups
      && forall k :: 0 <= k < m.i ==> 0 <= f.selectorMtf[k] < m.nGroups
    }

    /** How many bits the label asks for. */
    function Need(): (n: int)
      requires !at.Stopped()
    {
      match at
      case RandBit => 1
      case Mapping1 => 1
      case Mapping2 => 1
      case Selector1 => 3
      case Selector2 => 15
      case Selector3 => 1
      case Coding1 => 5
      case Coding2 => 1
      case Coding3 => 1
      case MtfCode(_) => m.zn
      case MtfBit(_) => 1
      case _ => 8
    }

    lemma {:induction false} NeedRange()
      requires Valid() && !at.Stopped()
      ensures 1 <= Need() <= 20
    {
      if at.MtfCode? {
        LengthRange(f.len[f.selector[m.groupNo]]);
      }
    }

    /** The bits asked for, put where the label says. */
    function Receive(v: nat): State
      requires !at.Stopped()
    {
      match at
      case Magic(4) => this.(f := f.(blockSize100k := v))
      case RandBit => this.(f := f.(randomised := v == 1))
      case Selector1 => this.(m := m.(nGroups := v))
      case Selector2 => this.(m := m.(nSelectors := v))
      case Coding1 => this.(m := m.(curr := v))
      case MtfCode(_) => this.(m := m.(zvec := v))
      case MtfBit(_) => this.(m := m.(zj := v))
      case _ => this.(m := m.(uc := v))
    }

    // The code after each label, up to the next one.

    function AfterMagic(n: nat): State
      requires 1 <= n <= 4
    {
      if n < 4 then
        if m.uc == [0x42, 0x5a, 0x68][n - 1] then Go(Magic(n + 1)) else Go(BadMagic)
      else if f.blockSize100k < 0x31 || f.blockSize100k > 0x39 then Go(BadMagic)
      else this.(f := f.(blockSize100k := f.blockSize100k - 0x30), at := BlkHdr(1))
    }

    function AfterBlkHdr(n: nat): State
      requires 1 <= n <= 6
    {
      if n == 1 && m.uc == END_HEADER[0] then Go(EndHdr(2))
      else if m.uc != BLOCK_HEADER[n - 1] then Go(BadData)
      else if n < 6 then Go(BlkHdr(n + 1))
      else this.(f := f.(storedBlockCRC := 0), at := BlockCrc(1))
    }

    function AfterBlockCrc(n: nat): State {
      var s := this.(f := f.(storedBlockCRC := f.storedBlockCRC * 0x100 + m.uc));
      if n < 4 then s.Go(BlockCrc(n + 1)) else s.Go(RandBit)
    }

    function AfterOrigPtr(n: nat): State {
      var s := this.(f := f.(origPtr := f.origPtr * 0x100 + m.uc));
      if n < 3 then s.Go(OrigPtr(n + 1))
      else if s.f.origPtr < 0 || s.f.origPtr > 10 + 100000 * f.blockSize100k then s.Go(BadData)
      else s.(m := m.(i := 0), at := Mapping1)
    }

    function AfterMapping1(): State
      requires 0 <= m.i < |f.inUse16| == 16
    {
      var s := this.(f := f.(inUse16 := f.inUse16[m.i := m.uc == 1]));
      if m.i + 1 < 16 then s.(m := m.(i := m.i + 1), at := Mapping1)
      else s.(f := s.f.(inUse := seq(256, _ => false))).NextRange(0)
    }

    /** Go on to the next sixteen bytes of which some are in use. */
    function NextRange(k: nat): State
      requires k <= 16 == |f.inUse16| && |f.inUse| == 256
      decreases 16 - k
    {
      if k == 16 then
        var used := UsedBelow(f.inUse, 256);
        if used == [] then this.(f := f.(bytes := used), at := BadData)
        else this.(f := f.(bytes := used), m := m.(i := 16, alphaSize := |used| + 2), at := Selector1)
      else if f.inUse16[k] then this.(m := m.(i := k, j := 0), at := Mapping2)
      else NextRange(k + 1)
    }

    function AfterMapping2(): State
      requires 0 <= m.i < 16 && 0 <= m.j < 16 == |f.inUse16| && |f.inUse| == 256
    {
      var s := if m.uc == 1 then this.(f := f.(inUse := f.inUse[m.i * 16 + m.j := true])) else this;
      if m.j + 1 < 16 then s.(m := m.(j := m.j + 1), at := Mapping2) else s.NextRange(m.i + 1)
    }

    function AfterSelector1(): State {
      if m.nGroups < 2 || m.nGroups > 6 then Go(BadData) else Go(Selector2)
    }

    function AfterSelector2(): State {
      if m.nSelectors < 1 then Go(BadData)
      else this.(f := f.(selectorMtf := []), m := m.(i := 0, j := 0), at := Selector3)
    }

    function AfterSelector3(): State
      requires SelectorsSoFar()
    {
      if m.uc != 0 then
        if m.j + 1 >= m.nGroups then Go(BadData) else this.(m := m.(j := m.j + 1), at := Selector3)
      else
        var s := this.(f := f.(selectorMtf := f.selectorMtf + [m.j]), m := m.(i := m.i + 1));
        if s.m.i < m.nSelectors then s.(m := s.m.(j := 0), at := Selector3)
        else
          s.(f := s.f.(selector := UndoMtf(s.f.selectorMtf, Identity(m.nGroups)), len := [], cur := []),
             m := s.m.(t := 0), at := Coding1)
    }

    function AfterCoding1(): State {
      this.(f := f.(cur := []), m := m.(i := 0)).CheckLength()
    }

    /** The top of the delta loop: the length must be in range. */
    function CheckLength(): State {
      if m.curr < 1 || m.curr > 20 then Go(BadData) else Go(Coding2)
    }

    function AfterCoding2(): State
      requires RowSoFar()
    {
      if m.uc != 0 then Go(Coding3)
      else
        var s := this.(f := f.(cur := f.cur + [m.curr]), m := m.(i := m.i + 1));
        if s.m.i < m.alphaSize then s.CheckLength()
        else
          var s' := s.(f := s.f.(len := f.len + [s.f.cur]), m := s.m.(t := m.t + 1));
          if s'.m.t < m.nGroups then s'.Go(Coding1) else s'.BuildTables().BeginSymbols()
    }

    function AfterCoding3(): State {
      this.(m := m.(curr := if m.uc == 0 then m.curr + 1 else m.curr - 1)).CheckLength()
    }

    /** "Create the Huffman decoding tables"; minLen and maxLen are left at what the
        last of them had. */
    function BuildTables(): State
      requires AllLengths()
    {
      var last := f.len[m.nGroups - 1];
      this.(f := f.(tables := AllTables()),
            m := m.(t := m.nGroups, i := m.alphaSize, minLen := MinLen(last), maxLen := MaxLen(last)))
    }

    function AllTables(): (t: seq<Tables>)
      requires AllLengths()
      ensures |t| == m.nGroups && forall k :: 0 <= k < m.nGroups ==> GoodLengths(f.len[k]) && t[k].For(f.len[k])
    {
      seq(m.nGroups, k requires 0 <= k < m.nGroups => TableFor(f.len[k]))
    }

    function TableFor(s: Text): (t: Tables)
      requires InAlphabet() && GoodLengths(s)
      ensures t.For(s)
    {
      MakeTables(s)
    }

    /** "Now the MTF values", up to the first of them. */
    function BeginSymbols(): State
      requires SelectorsKnown() && |f.tables| == m.nGroups
    {
      this.(f := f.(unzftab := seq(256, _ => 0), list := Identity(256), block := []),
            m := m.(eob := |f.bytes| + 1, nblockMAX := 100000 * f.blockSize100k, groupNo := -1, groupPos := 0,
                    i := 256, nblock := 0)).NextSymbol(First)
    }

    /** GET_MTF_VAL up to its first label. */
    function NextSymbol(site: Site): State
      requires SelectorsKnown() && |f.tables| == m.nGroups
      requires (m.groupNo == -1 && m.groupPos == 0) || GroupAtHand()
    {
      if m.groupPos == 0 then
        if m.groupNo + 1 >= m.nSelectors then this.(m := m.(groupNo := m.groupNo + 1), at := BadData)
        else
          var g: int := f.selector[m.groupNo + 1];
          var min := f.tables[g].minLen;
          this.(m := m.(groupNo := m.groupNo + 1, groupPos := G_SIZE - 1, gSel := g, gMinlen := min,
                        gLimit := g, gPerm := g, gBase := g, zn := min), at := MtfCode(site))
      else this.(m := m.(groupPos := m.groupPos - 1, zn := m.gMinlen), at := MtfCode(site))
    }

    /** Of the code being read, zn bits are in zvec, and the shorter codes refused. */
    ghost predicate Reading() {
      InCode() && m.zvec >= 0 && m.gMinlen <= m.zn <= 21 && (m.zn <= 20 ==> Passed(Table(), m.zn, m.zvec))
    }

    function AfterMtfBit(site: Site): State
      requires InCode() && m.zj >= 0 && m.gMinlen < m.zn <= 21 && m.zvec >= 0 && m.zvec > Table().limit[m.zn - 1]
    {
      this.(m := m.(zvec := 2 * m.zvec + m.zj)).CheckCode(site)
    }

    /** GET_MTF_VAL with zn bits in zvec. */
    function CheckCode(site: Site): State
      requires Reading()
    {
      if m.zn > 20 then Go(BadData)
      else if m.zvec <= f.tables[m.gLimit].limit[m.zn] then
        var x := m.zvec - f.tables[m.gBase].base[m.zn];
        if x < 0 || x >= MAX_ALPHA then Go(BadData)
        else
          AcceptedSymbol(f.len[m.gSel], Table(), m.zn, m.zvec);
          this.(m := m.(nextSym := f.tables[m.gPerm].perm[x])).GotSymbol(site)
      else this.(m := m.(zn := m.zn + 1), at := MtfBit(site))
    }

    /** What the symbol loop does with nextSym at each place that asks for it. */
    function GotSymbol(site: Site): State
      requires InCode() && 0 <= m.nextSym <= m.eob
    {
      if site == InRun then
        if m.nextSym == RUNA || m.nextSym == RUNB then AddDigit() else EndRun()
      else LoopTop()
    }

    function LoopTop(): State
      requires InCode() && 0 <= m.nextSym <= m.eob
    {
      if m.nextSym == m.eob then Finish()
      else if m.nextSym == RUNA || m.nextSym == RUNB then this.(m := m.(es := -1, n := 1)).AddDigit()
      else Literal()
    }

    /** The body of the do-while loop that adds up run digits. */
    function AddDigit(): State
      requires InCode() && 0 <= m.nextSym <= RUNB
    {
      this.(m := m.(es := ToInt32(m.es + (m.nextSym + 1) * m.n), n := ToInt32(m.n * 2))).NextSymbol(InRun)
    }

    /** The run is counted and stored, and nextSym, which ended it, looked at. */
    function EndRun(): State
      requires InCode() && RUNB < m.nextSym <= m.eob
    {
      var es := ToInt32(m.es + 1);
      var c := f.bytes[f.list[0]];
      var s := this.(f := f.(unzftab := f.unzftab[c := ToInt32(f.unzftab[c] + es)]), m := m.(es := es, uc := c));
      if es <= 0 then s.LoopTop()
      else if m.nblock + es > m.nblockMAX then
        var fit := m.nblockMAX - m.nblock;
        s.(f := s.f.(block := f.block + Repeat(c, fit)), m := s.m.(es := es - fit, nblock := m.nblockMAX), at := BadData)
      else s.(f := s.f.(block := f.block + Repeat(c, es)), m := s.m.(es := 0, nblock := m.nblock + es)).LoopTop()
    }

    function Literal(): State
      requires InCode() && RUNB < m.nextSym < m.eob
    {
      if m.nblock >= m.nblockMAX then Go(BadData)
      else
        var k := m.nextSym - 1;
        var u := f.list[k];
        var c := f.bytes[u];
        AlphabetKept(f.list, f.bytes, k);
        this.(f := f.(list := ToFront(f.list, k), unzftab := f.unzftab[c := ToInt32(f.unzftab[c] + 1)], block := f.block + [c]),
              m := m.(uc := u, nblock := m.nblock + 1)).NextSymbol(AfterLiteral)
    }

    /** "Now we know what nblock is" */
    function Finish(): State {
      if f.origPtr < 0 || f.origPtr >= m.nblock then Go(BadData) else Go(Output)
    }

    function AfterEndHdr(n: nat): State
      requires 2 <= n <= 6
    {
      if m.uc != END_HEADER[n - 1] then Go(BadData)
      else if n < 6 then Go(EndHdr(n + 1))
      else this.(f := f.(storedCombinedCRC := 0), at := CombinedCrc(1))
    }

    function AfterCombinedCrc(n: nat): State {
      var s := this.(f := f.(storedCombinedCRC := f.storedCombinedCRC * 0x100 + m.uc));
      if n < 4 then s.Go(CombinedCrc(n + 1)) else s.Go(StreamEnd)
    }

    /** More bits of a code. */
    function AfterCode(v: nat): State
      requires Valid() && (at.MtfCode? || at.MtfBit?)
    {
      CodeFacts(v);
      if at.MtfCode? then this.(m := m.(zvec := v)).CheckCode(at.site) else this.(m := m.(zj := v)).AfterMtfBit(at.site)
    }

    lemma {:induction false} CodeFacts(v: nat)
      requires Valid() && (at.MtfCode? || at.MtfBit?)
      ensures Base() && InCode()
      ensures at.MtfCode? ==> this.(m := m.(zvec := v)).Reading()
      ensures at.MtfBit? ==> m.gMinlen < m.zn <= 21 && m.zvec >= 0 && 0 <= m.gSel < |f.tables|
      ensures at.MtfBit? ==> |Table().limit| == MAX_ALPHA && m.zvec > Table().limit[m.zn - 1]
    {
      LengthRange(f.len[m.gSel]);
    }

    /** One step: the bits asked for have arrived. */
    function After(v: nat): State
      requires Valid() && !at.Stopped()
    {
      var s := Receive(v);
      match at
      case Magic(n) => s.AfterMagic(n)
      case BlkHdr(n) => s.AfterBlkHdr(n)
      case BlockCrc(n) => s.AfterBlockCrc(n)
      case RandBit => s.(f := s.f.(origPtr := 0), at := OrigPtr(1))
      case OrigPtr(n) => s.AfterOrigPtr(n)
      case Mapping1 => s.AfterMapping1()
      case Mapping2 => s.AfterMapping2()
      case Selector1 => s.AfterSelector1()
      case Selector2 => s.AfterSelector2()
      case Selector3 => s.AfterSelector3()
      case Coding1 => s.AfterCoding1()
      case Coding2 => s.AfterCoding2()
      case Coding3 => s.AfterCoding3()
      case MtfCode(_) => AfterCode(v)
      case MtfBit(_) => AfterCode(v)
      case EndHdr(n) => s.AfterEndHdr(n)
      case CombinedCrc(n) => s.AfterCombinedCrc(n)
    }

    // ---------------------------------------------- every step keeps it valid

    lemma {:induction false} NextRangeValid(k: nat)
      requires Base() && k <= 16
      ensures NextRange(k).Valid()
      decreases 16 - k
    {
      if k == 16 {
        UsedExactly(f.inUse, 256);
      } else if !f.inUse16[k] {
        NextRangeValid(k + 1);
      }
    }

    lemma {:induction false} HeaderValid(v: nat)
      requires Valid() && (at.Magic? || at.BlkHdr? || at.BlockCrc? || at.RandBit?)
      ensures After(v).Valid()
    {
      hide CheckCode, AfterMtfBit, AfterCoding2, AfterSelector3, AfterMapping1, AfterMapping2, InCode, RowSoFar;
    }

    lemma {:induction false} TrailerValid(v: nat)
      requires Valid() && (at.OrigPtr? || at.EndHdr? || at.CombinedCrc?)
      ensures After(v).Valid()
    {
      hide CheckCode, AfterMtfBit, AfterCoding2, AfterSelector3, AfterMapping1, AfterMapping2, InCode, RowSoFar;
    }

    lemma {:induction false} MappingValid(v: nat)
      requires Valid() && (at.Mapping1? || at.Mapping2?)
      ensures After(v).Valid()
    {
      hide CheckCode, AfterMtfBit, AfterCoding2, AfterSelector3, InCode, RowSoFar, NextRange;
      var s := Receive(v);
      if at.Mapping1? {
        var s' := s.(f := f.(inUse16 := f.inUse16[m.i := v == 1]));
        if m.i + 1 == 16 { s'.(f := s'.f.(inUse := seq(256, _ => false))).NextRangeValid(0); }
      } else {
        var s' := if v == 1 then s.(f := f.(inUse := f.inUse[m.i * 16 + m.j := true])) else s;
        if m.j + 1 == 16 { s'.NextRangeValid(m.i + 1); }
      }
    }

    lemma {:induction false} SelectorsValid(v: nat)
      requires Valid() && (at.Selector1? || at.Selector2? || at.Selector3?)
      ensures After(v).Valid()
    {
      hide CheckCode, AfterMtfBit, AfterCoding2, AfterMapping1, AfterMapping2, InCode, RowSoFar;
      if at.Selector3? && v == 0 && m.i + 1 == m.nSelectors {
        UndoMtfBound(f.selectorMtf + [m.j], Identity(m.nGroups), m.nGroups);
      }
    }

    lemma {:induction false} CodingValid(v: nat)
      requires Valid() && (at.Coding1? || at.Coding3?)
      ensures After(v).Valid()
    {
      hide CheckCode, AfterMtfBit, AfterMapping1, AfterMapping2, AfterCoding2, AfterSelector3, InCode;
    }

    lemma {:induction false} LengthsValid(v: nat)
      requires Valid() && at.Coding2?
      ensures After(v).Valid()
    {
      hide CheckCode, AfterMtfBit, AfterMapping1, AfterMapping2, AfterSelector3, InCode, BuildTables, BeginSymbols;
      if v == 0 && m.i + 1 == m.alphaSize {
        var s := Receive(v).(f := f.(cur := f.cur + [m.curr]), m := Receive(v).m.(i := m.i + 1));
        var s' := s.(f := s.f.(len := f.len + [s.f.cur]), m := s.m.(t := m.t + 1));
        assert s'.GoodLengths(s.f.cur);
        if s'.m.t == m.nGroups {
          s'.BuildValid();
        }
      }
    }

    lemma {:induction false} BuildValid()
      requires Base() && AllLengths()
      ensures BuildTables().BeginSymbols().Valid()
    {
      hide Tables.For, MakeTables, MinLen, MaxLen, NextSymbol;
      var s := BuildTables();
      var s' := s.(f := s.f.(unzftab := seq(256, _ => 0), list := Identity(256), block := []),
                   m := s.m.(eob := |f.bytes| + 1, nblockMAX := 100000 * f.blockSize100k, groupNo := -1, groupPos := 0,
                             i := 256, nblock := 0));
      assert s'.TablesKnown();
      s'.NextSymbolValid(First);
    }

    lemma {:induction false} NextSymbolValid(site: Site)
      requires Base() && TablesKnown() && Receiving()
      requires (m.groupNo == -1 && m.groupPos == 0) || GroupAtHand()
      ensures NextSymbol(site).Valid()
    {
      hide Tables.For;
    }

    lemma {:induction false} AddDigitValid()
      requires Base() && InCode() && 0 <= m.nextSym <= RUNB
      ensures AddDigit().Valid()
    {
      hide Tables.For, NextSymbol, ToInt32;
      this.(m := m.(es := ToInt32(m.es + (m.nextSym + 1) * m.n), n := ToInt32(m.n * 2))).NextSymbolValid(InRun);
    }

    lemma {:induction false} LiteralValid()
      requires Base() && InCode() && RUNB < m.nextSym < m.eob
      ensures Literal().Valid()
    {
      hide Tables.For, NextSymbol, ToInt32, ToFront;
      if m.nblock < m.nblockMAX {
        var k := m.nextSym - 1;
        var c := f.bytes[f.list[k]];
        AlphabetKept(f.list, f.bytes, k);
        this.(f := f.(list := ToFront(f.list, k), unzftab := f.unzftab[c := ToInt32(f.unzftab[c] + 1)], block := f.block + [c]),
              m := m.(uc := f.list[k], nblock := m.nblock + 1)).NextSymbolValid(AfterLiteral);
      }
    }

    lemma {:induction false} LoopTopValid()
      requires Base() && InCode() && 0 <= m.nextSym <= m.eob
      ensures LoopTop().Valid()
    {
      hide Tables.For, AddDigit, Literal;
      if m.nextSym == RUNA || m.nextSym == RUNB {
        this.(m := m.(es := -1, n := 1)).AddDigitValid();
      } else if m.nextSym != m.eob {
        LiteralValid();
      }
    }

    lemma {:induction false} EndRunValid()
      requires Base() && InCode() && RUNB < m.nextSym <= m.eob
      ensures EndRun().Valid()
    {
      hide Tables.For, LoopTop, ToInt32, Alphabet;
      AlphabetFront(f.list, f.bytes);
      var es, c := ToInt32(m.es + 1), f.bytes[f.list[0]];
      var s := this.(f := f.(unzftab := f.unzftab[c := ToInt32(f.unzftab[c] + es)]), m := m.(es := es, uc := c));
      if es <= 0 {
        s.LoopTopValid();
      } else if m.nblock + es <= m.nblockMAX {
        s.(f := s.f.(block := f.block + Repeat(c, es)), m := s.m.(es := 0, nblock := m.nblock + es)).LoopTopValid();
      }
    }

    lemma {:induction false} GotSymbolValid(site: Site)
      requires Base() && InCode() && 0 <= m.nextSym <= m.eob
      ensures GotSymbol(site).Valid()
    {
      hide InCode, LoopTop, AddDigit, EndRun;
      if site == InRun {
        if m.nextSym == RUNA || m.nextSym == RUNB { AddDigitValid(); } else { EndRunValid(); }
      } else {
        LoopTopValid();
      }
    }

    lemma {:induction false} CheckCodeValid(site: Site)
      requires Base() && Reading()
      ensures CheckCode(site).Valid()
    {
      hide GotSymbol, Passed;
      if m.zn <= 20 && m.zvec <= f.tables[m.gLimit].limit[m.zn] {
        AcceptedSymbol(f.len[m.gSel], Table(), m.zn, m.zvec);
        var x := m.zvec - f.tables[m.gBase].base[m.zn];
        if 0 <= x < MAX_ALPHA {
          this.(m := m.(nextSym := f.tables[m.gPerm].perm[x])).GotSymbolValid(site);
        }
      }
    }

    lemma {:induction false} MtfBitValid(site: Site)
      requires Base() && InCode() && m.zj >= 0 && m.gMinlen < m.zn <= 21 && m.zvec >= 0 && m.zvec > Table().limit[m.zn - 1]
      ensures AfterMtfBit(site).Valid()
    {
      hide CheckCode, Valid, Tables.For;
      this.(m := m.(zvec := 2 * m.zvec + m.zj)).CheckCodeValid(site);
    }

    lemma {:induction false} MtfBitReady(v: nat)
      requires Base() && InCode()
      ensures this.(m := m.(zj := v)).Base() && this.(m := m.(zj := v)).InCode() && this.(m := m.(zj := v)).Table() == Table()
    {
      hide Tables.For, Alphabet;
    }

    lemma {:induction false} CodeValid(v: nat)
      requires Valid() && (at.MtfCode? || at.MtfBit?)
      ensures AfterCode(v).Valid()
    {
      hide CheckCode, Tables.For, AfterMtfBit, Valid, InCode, Reading;
      CodeFacts(v);
      if at.MtfCode? {
        this.(m := m.(zvec := v)).CheckCodeValid(at.site);
      } else {
        MtfBitReady(v);
        this.(m := m.(zj := v)).MtfBitValid(at.site);
      }
    }

    lemma {:induction false} AfterValid(v: nat)
      requires Valid() && !at.Stopped()
      ensures After(v).Valid()
    {
      hide *;
      if at.Mapping1? || at.Mapping2? {
        MappingValid(v);
      } else if at.MtfCode? || at.MtfBit? {
        CodeValid(v);
        AfterCodeIs(v);
      } else if at.Selector1? || at.Selector2? || at.Selector3? {
        SelectorsValid(v);
      } else if at.Coding2? {
        LengthsValid(v);
      } else if at.Coding1? || at.Coding3? {
        CodingValid(v);
      } else if at.Magic? || at.BlkHdr? || at.BlockCrc? || at.RandBit? {
        HeaderValid(v);
      } else {
        StoppedOrNot();
        TrailerValid(v);
      }
    }

    lemma {:induction false} AfterCodeIs(v: nat)
      requires Valid() && (at.MtfCode? || at.MtfBit?)
      ensures After(v) == AfterCode(v)
    {
      hide AfterCode, AfterCoding2, AfterSelector3;
    }

    lemma {:induction false} StoppedOrNot()
      ensures at.Stopped() <==> at.Output? || at.StreamEnd? || at.BadData? || at.BadMagic?
    {
    }

    // ------------------------------------ what is not saved makes no difference

    /** The same state, with other contents in the locals that are not saved. */
    function With(junk: Junk): State {
      this.(m := m.(uc := junk.uc, minLen := junk.minLen, maxLen := junk.maxLen))
    }

    /** They differ in those locals at most. */
    predicate Like(s: State) {
      s.at == at && s.f == f && Save(s.m) == Save(m)
    }

    lemma {:induction false} LikeWith(s: State)
      requires Like(s)
      ensures s == With(Junk(s.m.uc, s.m.minLen, s.m.maxLen))
    {
    }

    lemma {:induction false} ValidWith(junk: Junk)
      ensures Valid() <==> With(junk).Valid()
      ensures !at.Stopped() ==> Need() == With(junk).Need()
    {
      hide Tables.For, Alphabet;
    }

    lemma {:induction false} NextRangeWith(k: nat, junk: Junk)
      requires k <= 16 == |f.inUse16| && |f.inUse| == 256
      ensures With(junk).NextRange(k) == NextRange(k).With(junk)
      decreases 16 - k
    {
      if k < 16 && !f.inUse16[k] { NextRangeWith(k + 1, junk); }
    }

    lemma {:induction false} NextSymbolWith(site: Site, junk: Junk)
      requires SelectorsKnown() && |f.tables| == m.nGroups
      requires (m.groupNo == -1 && m.groupPos == 0) || GroupAtHand()
      ensures With(junk).NextSymbol(site) == NextSymbol(site).With(junk)
    {
      hide Tables.For;
    }

    lemma {:induction false} LiteralWith(junk: Junk)
      requires InCode() && RUNB < m.nextSym < m.eob
      ensures With(junk).InCode() && Literal().Like(With(junk).Literal())
    {
      hide Tables.For, ToInt32, ToFront;
      AlphabetKept(f.list, f.bytes, m.nextSym - 1);
    }

    lemma {:induction false} InCodeWith(junk: Junk)
      requires InCode()
      ensures With(junk).InCode()
    {
      hide Tables.For, Alphabet;
    }

    lemma {:induction false} AddDigitWith(junk: Junk)
      requires InCode() && 0 <= m.nextSym <= RUNB
      ensures With(junk).InCode() && AddDigit().Like(With(junk).AddDigit())
    {
      hide Tables.For, ToInt32, Alphabet;
    }

    lemma {:induction false} LoopTopWith(junk: Junk)
      requires InCode() && 0 <= m.nextSym <= m.eob
      ensures With(junk).InCode() && LoopTop().Like(With(junk).LoopTop())
    {
      hide InCode, Literal, AddDigit;
      InCodeWith(junk);
      if m.nextSym == m.eob {
      } else if m.nextSym == RUNA || m.nextSym == RUNB {
        StartRun();
        this.(m := m.(es := -1, n := 1)).AddDigitWith(junk);
      } else {
        LiteralWith(junk);
      }
    }

    lemma {:induction false} StartRun()
      requires InCode()
      ensures this.(m := m.(es := -1, n := 1)).InCode()
    {
      hide Tables.For, Alphabet;
    }

    lemma {:induction false} EndRunWith(junk: Junk)
      requires InCode() && RUNB < m.nextSym <= m.eob
      ensures With(junk).InCode() && EndRun().Like(With(junk).EndRun())
    {
      hide Tables.For, LoopTop, ToInt32, Alphabet;
      AlphabetFront(f.list, f.bytes);
      var es, c := ToInt32(m.es + 1), f.bytes[f.list[0]];
      var f1 := f.(unzftab := f.unzftab[c := ToInt32(f.unzftab[c] + es)]);
      var s := this.(f := f1, m := m.(es := es, uc := c));
      var rest := Junk(c, junk.minLen, junk.maxLen);
      if es <= 0 {
        s.LoopTopWith(rest);
      } else if m.nblock + es <= m.nblockMAX {
        s.(f := s.f.(block := f.block + Repeat(c, es)), m := s.m.(es := 0, nblock := m.nblock + es)).LoopTopWith(rest);
      }
    }

    lemma {:induction false} GotSymbolWith(site: Site, junk: Junk)
      requires InCode() && 0 <= m.nextSym <= m.eob
      ensures With(junk).InCode() && GotSymbol(site).Like(With(junk).GotSymbol(site))
    {
      hide InCode, LoopTop, AddDigit, EndRun;
      InCodeWith(junk);
      if site == InRun {
        if m.nextSym == RUNA || m.nextSym == RUNB { AddDigitWith(junk); } else { EndRunWith(junk); }
      } else {
        LoopTopWith(junk);
      }
    }

    lemma {:induction false} CheckCodeWith(site: Site, junk: Junk)
      requires Reading()
      ensures With(junk).Reading() && CheckCode(site).Like(With(junk).CheckCode(site))
    {
      hide GotSymbol, Passed;
      InCodeWith(junk);
      if m.zn <= 20 && m.zvec <= f.tables[m.gLimit].limit[m.zn] {
        AcceptedSymbol(f.len[m.gSel], Table(), m.zn, m.zvec);
        var x := m.zvec - f.tables[m.gBase].base[m.zn];
        if 0 <= x < MAX_ALPHA {
          this.(m := m.(nextSym := f.tables[m.gPerm].perm[x])).GotSymbolWith(site, junk);
        }
      }
    }

    lemma {:induction false} MtfBitWith(site: Site, junk: Junk)
      requires InCode() && m.zj >= 0 && m.gMinlen < m.zn <= 21 && m.zvec >= 0 && m.zvec > Table().limit[m.zn - 1]
      ensures With(junk).InCode() && AfterMtfBit(site).Like(With(junk).AfterMtfBit(site))
    {
      hide CheckCode, Tables.For;
      InCodeWith(junk);
      this.(m := m.(zvec := 2 * m.zvec + m.zj)).CheckCodeWith(site, junk);
    }

    lemma {:induction false} CodeWith(v: nat, junk: Junk)
      requires Valid() && (at.MtfCode? || at.MtfBit?)
      ensures With(junk).Valid() && AfterCode(v).Like(With(junk).AfterCode(v))
    {
      hide CheckCode, Tables.For, AfterMtfBit, Valid, InCode, Reading;
      CodeFacts(v);
      ValidWith(junk);
      if at.MtfCode? {
        this.(m := m.(zvec := v)).CheckCodeWith(at.site, junk);
      } else {
        MtfBitReady(v);
        this.(m := m.(zj := v)).MtfBitWith(at.site, junk);
      }
    }

    lemma {:induction false} BuildWith(junk: Junk)
      requires Base() && AllLengths()
      ensures With(junk).AllLengths() && BuildTables().BeginSymbols().Like(With(junk).BuildTables().BeginSymbols())
    {
      hide Tables.For, MakeTables, MinLen, MaxLen, NextSymbol;
      var s := BuildTables();
      var s' := s.(f := s.f.(unzftab := seq(256, _ => 0), list := Identity(256), block := []),
                   m := s.m.(eob := |f.bytes| + 1, nblockMAX := 100000 * f.blockSize100k, groupNo := -1, groupPos := 0,
                             i := 256, nblock := 0));
      s'.NextSymbolWith(First, Junk(junk.uc, s.m.minLen, s.m.maxLen));
      assert AllTables() == With(junk).AllTables();
    }

    lemma {:induction false} MappingWith(v: nat, junk: Junk)
      requires Valid() && (at.Mapping1? || at.Mapping2?)
      ensures With(junk).Valid() && After(v).Like(With(junk).After(v))
    {
      hide CheckCode, AfterCode, AfterCoding2, AfterSelector3, InCode, RowSoFar, NextRange;
      var s, rest := Receive(v), Junk(v, junk.minLen, junk.maxLen);
      if at.Mapping1? {
        var s' := s.(f := f.(inUse16 := f.inUse16[m.i := v == 1]));
        if m.i + 1 == 16 { s'.(f := s'.f.(inUse := seq(256, _ => false))).NextRangeWith(0, rest); }
      } else {
        var s' := if v == 1 then s.(f := f.(inUse := f.inUse[m.i * 16 + m.j := true])) else s;
        if m.j + 1 == 16 { s'.NextRangeWith(m.i + 1, rest); }
      }
    }

    lemma {:induction false} LengthsWith(v: nat, junk: Junk)
      requires Valid() && at.Coding2?
      ensures With(junk).Valid() && After(v).Like(With(junk).After(v))
    {
      hide CheckCode, AfterCode, AfterMapping1, AfterMapping2, AfterSelector3, InCode, BuildTables, BeginSymbols;
      if v == 0 && m.i + 1 == m.alphaSize {
        var s := Receive(v).(f := f.(cur := f.cur + [m.curr]), m := Receive(v).m.(i := m.i + 1));
        var s' := s.(f := s.f.(len := f.len + [s.f.cur]), m := s.m.(t := m.t + 1));
        assert s'.GoodLengths(s.f.cur);
        if s'.m.t == m.nGroups {
          s'.BuildWith(Junk(v, junk.minLen, junk.maxLen));
        }
      }
    }

    lemma {:induction false} FieldsWith(v: nat, junk: Junk)
      requires Valid() && !at.Stopped()
      requires at.Magic? || at.BlkHdr? || at.BlockCrc? || at.RandBit? || at.OrigPtr? || at.EndHdr? || at.CombinedCrc?
      ensures With(junk).Valid() && After(v).Like(With(junk).After(v))
    {
      hide CheckCode, AfterCode, AfterCoding2, AfterSelector3, AfterMapping1, AfterMapping2, InCode, RowSoFar;
    }

    lemma {:induction false} CountsWith(v: nat, junk: Junk)
      requires Valid() && (at.Selector1? || at.Selector2? || at.Selector3? || at.Coding1? || at.Coding3?)
      ensures With(junk).Valid() && After(v).Like(With(junk).After(v))
    {
      hide CheckCode, AfterCode, AfterCoding2, AfterMapping1, AfterMapping2, InCode;
    }

    /** Whatever those locals hold when a call begins, one step of it leaves the same
        behind. */
    lemma {:induction false} Independent(v: nat, junk: Junk)
      requires Valid() && !at.Stopped()
      ensures With(junk).Valid() && !With(junk).at.Stopped() && After(v).Like(With(junk).After(v))
    {
      hide *;
      WithAt(junk);
      if at.Mapping1? || at.Mapping2? {
        MappingWith(v, junk);
      } else if at.MtfCode? || at.MtfBit? {
        CodeWith(v, junk);
        AfterCodeIs(v);
        With(junk).AfterCodeIs(v);
      } else if at.Coding2? {
        LengthsWith(v, junk);
      } else if at.Selector1? || at.Selector2? || at.Selector3? || at.Coding1? || at.Coding3? {
        CountsWith(v, junk);
      } else {
        StoppedOrNot();
        FieldsWith(v, junk);
      }
    }

    lemma {:induction false} WithAt(junk: Junk)
      ensures With(junk).at == at
    {
    }
  }
}
