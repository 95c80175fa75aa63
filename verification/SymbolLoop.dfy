/** The symbol loop of the machine, from the bits of the codewords to the stop: it
    stores the block that the symbols stand for, or finds that it does not fit. */
module SymbolLoop {
  import opened Bits
  import opened BwtSpec
  import opened BitString
  import opened Huffman
  import opened RunLength
  import opened MoveToFront
  import opened Symbols
  import opened CodeTables
  import opened Parser
  import opened Suspension

  // ------------------------------------------------------------ taking bits

  /** Whatever follows, the machine takes these bits from s to s'. */
  ghost predicate Takes(s: State, bits: seq<Bit>, s': State) {
    && s.Valid() && s'.Valid()
    && forall rest: seq<Bit> :: RunLive(s, bits + rest) == RunLive(s', rest)
  }

  lemma {:induction false} TakesNothing(s: State)
    requires s.Valid()
    ensures Takes(s, [], s)
  {
    hide State.Valid, RunLive;
    forall rest: seq<Bit> ensures RunLive(s, [] + rest) == RunLive(s, rest) {
      assert [] + rest == rest;
    }
  }

  lemma {:induction false} TakesAt(s: State, bits: seq<Bit>, s': State, rest: seq<Bit>)
    requires Takes(s, bits, s')
    ensures s.Valid() && s'.Valid() && RunLive(s, bits + rest) == RunLive(s', rest)
  {
    hide State.Valid, RunLive;
  }

  lemma {:induction false} TakesBoth(s: State, a: seq<Bit>, s1: State, b: seq<Bit>, s2: State)
    requires Takes(s, a, s1) && Takes(s1, b, s2)
    ensures Takes(s, a + b, s2)
  {
    hide State.Valid, RunLive;
    forall rest: seq<Bit> ensures RunLive(s, a + b + rest) == RunLive(s2, rest) {
      assert a + b + rest == a + (b + rest);
      TakesAt(s, a, s1, b + rest);
      TakesAt(s1, b, s2, rest);
    }
  }

  /** One label's worth. */
  lemma {:induction false} TakesOne(s: State, bits: seq<Bit>)
    requires s.Valid() && !s.at.Stopped() && |bits| == s.Need()
    ensures Takes(s, bits, s.After(ValueOf(bits)))
  {
    hide State.Valid, RunLive, State.After, State.Need, ValueOf;
    s.NeedRange();
    s.AfterValid(ValueOf(bits));
    forall rest: seq<Bit> ensures RunLive(s, bits + rest) == RunLive(s.After(ValueOf(bits)), rest) {
      assert (bits + rest)[..|bits|] == bits && (bits + rest)[|bits|..] == rest;
      RunStep(s, bits + rest);
    }
  }

  /** A number in as many bits as the label asks for. */
  lemma {:induction false} TakesNumber(s: State, v: nat, n: nat)
    requires s.Valid() && !s.at.Stopped() && n == s.Need() && v < Pow2(n)
    ensures Takes(s, BitsOf(v, n), s.After(v))
  {
    hide State.Valid, State.After, State.Need, Takes;
    ValueOfBits(v, n);
    TakesOne(s, BitsOf(v, n));
  }

  // -------------------------------------------------------------- one code

  /** With zn bits of the codeword of symbol x read. */
  ghost predicate Partway(s: State, r: State, x: nat, zn: nat)
    ensures Partway(s, r, x, zn) ==> r.Reading()
  {
    && r.Base() && r.Reading() && r.f == s.f && r.m == s.m.(zn := zn, zvec := r.m.zvec, zj := r.m.zj)
    && x < |s.f.len[r.m.gSel]| && r.m.gMinlen <= zn <= s.f.len[r.m.gSel][x]
    && r.m.zvec == ValueOf(Codeword(s.f.len[r.m.gSel], x)[..zn])
  }

  /** The code at hand. */
  ghost predicate CodeOf(s: State, len: Lengths) {
    0 <= s.m.gSel < |s.f.len| && s.f.len[s.m.gSel] == len
  }

  lemma {:induction false} CodeFound(s: State, len: Lengths, x: nat)
    requires s.Valid() && s.at.MtfCode? && CodeOf(s, len) && x < |len|
    ensures s.Base() && s.InCode() && s.m.zn == s.m.gMinlen == MinLen(len) && 1 <= MinLen(len) <= len[x] <= 20
    ensures s.m.eob == |len| - 1 && 0 <= s.m.gSel < |s.f.tables| && s.Table() == s.f.tables[s.m.gSel] && s.Table().For(len)
    ensures s.m.gSel == s.m.gLimit == s.m.gBase == s.m.gPerm && |Codeword(len, x)| == len[x]
    ensures !s.at.Stopped() && s.Need() == s.m.gMinlen
  {
    hide Tables.For, Alphabet, MinLen, MaxLen;
    LengthRange(len);
    Shortest(s.f.tables[s.m.gSel], len);
  }

  lemma {:induction false} Shortest(t: Tables, len: Lengths)
    requires t.For(len)
    ensures t.minLen == MinLen(len)
  {
  }

  lemma {:induction false} FirstPart(s: State, len: Lengths, x: nat) returns (r: State)
    requires s.Valid() && s.at.MtfCode? && CodeOf(s, len) && Kraft(len) && x < |len|
    ensures s.m.gMinlen <= len[x] == |Codeword(len, x)| && Partway(s, r, x, s.m.gMinlen)
    ensures Takes(s, Codeword(len, x)[..s.m.gMinlen], r.CheckCode(s.at.site))
  {
    hide *;
    CodeFound(s, len, x);
    var bits := Codeword(len, x)[..s.m.gMinlen];
    var v := ValueOf(bits);
    TakesOne(s, bits);
    s.AfterCodeIs(v);
    r := FirstState(s, v);
    NowPartway(s, r, len, x, s.m.gMinlen);
  }

  lemma {:induction false} FirstState(s: State, v: nat) returns (r: State)
    requires s.Valid() && s.at.MtfCode?
    ensures r == s.(m := s.m.(zvec := v)) && r.Base() && r.Reading() && s.AfterCode(v) == r.CheckCode(s.at.site)
  {
    hide State.CheckCode, State.Reading, State.Base, State.InCode;
    s.CodeFacts(v);
    r := s.(m := s.m.(zvec := v));
    SameBase(s, r);
  }

  lemma {:induction false} SameBase(s: State, r: State)
    requires s.Base() && s.f == r.f
    ensures r.Base()
  {
  }

  lemma {:induction false} NowPartway(s: State, r: State, len: Lengths, x: nat, zn: nat)
    requires CodeOf(s, len) && x < |len| && r.Base() && r.Reading() && r.f == s.f
    requires r.m == s.m.(zn := zn, zvec := r.m.zvec, zj := r.m.zj) && r.m.gMinlen <= zn <= len[x]
    requires r.m.zvec == ValueOf(Codeword(len, x)[..zn])
    ensures Partway(s, r, x, zn)
  {
    hide State.Reading, State.Base, Codeword, ValueOf;
  }

  lemma {:induction false} PartwayFacts(s: State, r: State, len: Lengths, x: nat, zn: nat)
    requires s.Valid() && s.at.MtfCode? && CodeOf(s, len) && x < |len| && Partway(s, r, x, zn)
    ensures r.Base() && r.Reading() && r.f == s.f && r.m == s.m.(zn := zn, zvec := r.m.zvec, zj := r.m.zj)
    ensures MinLen(len) <= zn <= len[x] == |Codeword(len, x)| && r.m.zvec == ValueOf(Codeword(len, x)[..zn])
    ensures r.InCode() && 0 <= r.m.gSel < |r.f.tables| && r.Table().For(len) && r.Table() == r.f.tables[r.m.gLimit] == r.f.tables[r.m.gBase]
    ensures r.m.gSel == r.m.gLimit == r.m.gBase == r.m.gPerm && zn <= 20
  {
    hide State.Base, State.InCode, Codeword, ValueOf, Tables.For, Passed, MinLen, State.Valid;
    CodeFound(s, len, x);
  }

  /** One more bit: the shorter code is refused. */
  lemma {:induction false} NextPart(s: State, r: State, len: Lengths, x: nat, zn: nat) returns (r': State)
    requires s.Valid() && s.at.MtfCode? && CodeOf(s, len) && Kraft(len) && x < |len|
    requires Partway(s, r, x, zn) && zn < len[x] == |Codeword(len, x)|
    requires Takes(s, Codeword(len, x)[..zn], r.CheckCode(s.at.site))
    ensures Partway(s, r', x, zn + 1)
    ensures Takes(s, Codeword(len, x)[..zn + 1], r'.CheckCode(s.at.site))
  {
    hide *;
    var cw, site := Codeword(len, x), s.at.site;
    CodeFound(s, len, x);
    PartwayFacts(s, r, len, x, zn);
    Refused(r, len, x, zn, site);
    var w := r.CheckCode(site);
    var b := [cw[zn]];
    TakesAt(s, cw[..zn], w, []);
    BitNeeded(w, b);
    TakesOne(w, b);
    ValueOfBit(cw[zn]);
    w.AfterCodeIs(cw[zn]);
    r' := BitState(w, cw[zn]);
    TakesBoth(s, cw[..zn], w, b, w.After(cw[zn]));
    assert cw[..zn] + b == cw[..zn + 1];
    ValueMore(cw, zn);
    NowPartway(s, r', len, x, zn + 1);
  }

  lemma {:induction false} ValueOfBit(b: Bit)
    ensures ValueOf([b]) == b
  {
    assert [b][..0] == [];
  }

  lemma {:induction false} BitNeeded(w: State, b: seq<Bit>)
    requires w.at.MtfBit? && |b| == 1
    ensures !w.at.Stopped() && w.Need() == |b|
  {
  }

  lemma {:induction false} Refused(r: State, len: Lengths, x: nat, zn: nat, site: Site)
    requires r.Reading() && x < |len| && r.m.zn == zn < len[x] && MinLen(len) <= zn && zn <= 20 && Kraft(len)
    requires 0 <= r.m.gSel == r.m.gLimit < |r.f.tables| && r.Table() == r.f.tables[r.m.gLimit] && r.Table().For(len)
    requires zn <= |Codeword(len, x)| && r.m.zvec == ValueOf(Codeword(len, x)[..zn])
    ensures r.CheckCode(site) == r.(m := r.m.(zn := zn + 1), at := MtfBit(site))
  {
    hide Kraft, Code, Codeword, ValueOf, Huffman.First, Count, Pow2, Less, MinLen, MaxLen, State.GotSymbol, State.InCode, Passed;
    TablesShape(len, r.Table());
    CodewordPrefix(len, x, [], zn);
    assert Codeword(len, x) + [] == Codeword(len, x);
    ShortRefused(len, r.Table(), x, zn);
  }

  lemma {:induction false} BitState(w: State, b: Bit) returns (r: State)
    requires w.Valid() && w.at.MtfBit?
    ensures r == w.(m := w.m.(zj := b, zvec := 2 * w.m.zvec + b)) && r.Base() && r.Reading()
    ensures w.AfterCode(b) == r.CheckCode(w.at.site)
  {
    hide State.CheckCode, State.Base, Tables.For, Alphabet;
    w.CodeFacts(b);
    w.MtfBitReady(b);
    r := w.(m := w.m.(zj := b, zvec := 2 * w.m.zvec + b));
    SameBase(w, r);
  }

  /** At its own length the code is accepted. */
  lemma {:induction false} LastPart(s: State, r: State, len: Lengths, x: nat) returns (t: State)
    requires s.Valid() && s.at.MtfCode? && CodeOf(s, len) && Kraft(len) && x < |len| && Partway(s, r, x, len[x])
    ensures t.Base() && t.InCode() && t.m.nextSym == x <= t.m.eob
    ensures t.f == s.f && t.m == s.m.(zn := t.m.zn, zvec := t.m.zvec, zj := t.m.zj, nextSym := x)
    ensures r.CheckCode(s.at.site) == t.GotSymbol(s.at.site)
  {
    hide *;
    PartwayFacts(s, r, len, x, len[x]);
    CodeFound(s, len, x);
    t := r.(m := r.m.(nextSym := x));
    SameBase(r, t);
    SameInCode(r, t);
    Accepted(r, t, len, x, s.at.site);
  }

  lemma {:induction false} SameInCode(r: State, t: State)
    requires r.InCode() && t == r.(m := r.m.(nextSym := t.m.nextSym))
    ensures t.InCode()
  {
    hide Tables.For, Alphabet;
  }

  lemma {:induction false} Accepted(r: State, t: State, len: Lengths, x: nat, site: Site)
    requires r.Reading() && x < |len| && r.m.zn == len[x] <= 20 && Kraft(len) && MinLen(len) <= len[x]
    requires 0 <= r.m.gSel == r.m.gLimit == r.m.gBase == r.m.gPerm < |r.f.tables| && r.Table().For(len)
    requires len[x] == |Codeword(len, x)| && r.m.zvec == ValueOf(Codeword(len, x)[..len[x]])
    requires t == r.(m := r.m.(nextSym := x)) && t.InCode() && x <= t.m.eob
    ensures r.CheckCode(site) == t.GotSymbol(site)
  {
    hide Kraft, Code, Codeword, ValueOf, Huffman.First, Count, Less, MinLen, MaxLen, State.GotSymbol, State.InCode, Passed, Pow2;
    TablesShape(len, r.Table());
    CodewordPrefix(len, x, [], len[x]);
    assert Codeword(len, x) + [] == Codeword(len, x);
    assert Code(len, x) / Pow2(0) == Code(len, x);
    OwnAccepted(len, r.Table(), x);
  }

  /** The bits of a codeword, taken at a label that asks for a symbol, give it. */
  lemma {:induction false} CodeTaken(s: State, len: Lengths, x: nat) returns (t: State)
    requires s.Valid() && s.at.MtfCode? && CodeOf(s, len) && Kraft(len) && x < |len|
    ensures t.Base() && t.InCode() && t.m.nextSym == x <= t.m.eob
    ensures t.f == s.f && t.m == s.m.(zn := t.m.zn, zvec := t.m.zvec, zj := t.m.zj, nextSym := x)
    ensures Takes(s, Codeword(len, x), t.GotSymbol(s.at.site))
  {
    hide *;
    CodeFound(s, len, x);
    var min := s.m.gMinlen;
    var r := FirstPart(s, len, x);
    var zn := min;
    while zn < len[x]
      invariant min <= zn <= len[x] == |Codeword(len, x)| && Partway(s, r, x, zn)
      invariant Takes(s, Codeword(len, x)[..zn], r.CheckCode(s.at.site))
      decreases len[x] - zn
    {
      r := NextPart(s, r, len, x, zn);
      zn := zn + 1;
    }
    t := LastPart(s, r, len, x);
    assert Codeword(len, x)[..len[x]] == Codeword(len, x);
  }

  // ------------------------------------------------------------ the symbols

  /** The bits make the machine stop at s', where it leaves what follows unread unless
      the data are bad. */
  ghost predicate Comes(s: State, bits: seq<Bit>, s': State) {
    && s.Valid() && s'.at.Stopped()
    && forall rest: seq<Bit> {:trigger bits + rest} :: RunLive(s, bits + rest).0 == s' && (s'.at.BadData? || RunLive(s, bits + rest).1 == rest)
  }

  lemma {:induction false} ComesAt(s: State, bits: seq<Bit>, s': State, rest: seq<Bit>)
    requires Comes(s, bits, s')
    ensures s.Valid() && RunLive(s, bits + rest).0 == s' && (s'.at.BadData? || RunLive(s, bits + rest).1 == rest)
  {
    hide State.Valid, RunLive;
  }

  lemma {:induction false} ComesNow(s: State, bits: seq<Bit>)
    requires s.Valid() && s.at.Stopped() && (s.at.BadData? || bits == [])
    ensures Comes(s, bits, s)
  {
    hide State.Valid, RunLive;
    forall rest: seq<Bit> ensures RunLive(s, bits + rest).0 == s && (s.at.BadData? || RunLive(s, bits + rest).1 == rest) {
      RunStops(s, bits + rest);
      if bits == [] { assert bits + rest == rest; }
    }
  }

  lemma {:induction false} ComesAfter(s: State, a: seq<Bit>, s1: State, b: seq<Bit>, s2: State)
    requires Takes(s, a, s1) && Comes(s1, b, s2)
    ensures Comes(s, a + b, s2)
  {
    hide State.Valid, RunLive;
    forall rest: seq<Bit> ensures RunLive(s, a + b + rest).0 == s2 && (s2.at.BadData? || RunLive(s, a + b + rest).1 == rest) {
      assert a + b + rest == a + (b + rest);
      TakesAt(s, a, s1, b + rest);
      ComesAt(s1, b, s2, rest);
    }
  }

  /** Each symbol has a selector and a code. */
  predicate Spelled(len: seq<Text>, selector: seq<nat>, syms: seq<nat>, q: nat) {
    && q + |syms| <= 50 * |selector| && (forall k :: 0 <= k < |selector| ==> selector[k] < |len|)
    && forall k, i :: 0 <= k < |len| && 0 <= i < |syms| ==> syms[i] < |len[k]|
  }

  /** The codewords of syms, the first of them number q of the block: fifty by fifty
      they use the code that the next selector names. */
  function SymbolBits(len: seq<Text>, selector: seq<nat>, syms: seq<nat>, q: nat): seq<Bit>
    requires Spelled(len, selector, syms, q)
    decreases |syms|
  {
    if syms == [] then []
    else Codeword(len[selector[q / 50]], syms[0]) + SymbolBits(len, selector, syms[1..], q + 1)
  }

  /** q symbols have been asked for. */
  predicate Asked(s: State, q: nat) {
    s.m.groupNo * 50 + 50 - s.m.groupPos == q
  }

  /** Lengths in range, with codes that fit them. */
  ghost predicate Codes(len: Text) {
    0 < |len| <= 258 && (forall i :: 0 <= i < |len| ==> 1 <= len[i] <= 20) && Kraft(len)
  }

  ghost predicate AllKraft(f: Fields) {
    forall k :: 0 <= k < |f.len| ==> Codes(f.len[k])
  }

  /** syms are symbols up to the end of block. */
  predicate Whole(syms: seq<nat>, bytes: Text) {
    && syms != [] && syms[|syms| - 1] == |bytes| + 1
    && forall i :: 0 <= i < |syms| - 1 ==> syms[i] <= |bytes|
  }

  /** About to look at the first of rem, a run of digits d having been read before it:
      what all of them stand for is o. */
  ghost predicate Toward(s: State, q: nat, rem: seq<nat>, d: seq<nat>, lost: Losses, o: Outcome)
    ensures Toward(s, q, rem, d, lost, o) ==> s.InCode() && rem != []
  {
    && s.Base() && s.InCode() && AllKraft(s.f) && Asked(s, q + 1) && q + |rem| <= 50 * |s.f.selector|
    && Whole(rem, s.f.bytes) && (forall i :: 0 <= i < |d| ==> d[i] <= RUNB)
    && s.m.nblockMAX >= 0 && SymbolsIn(d + rem, s.f.bytes) && Tally(s.f.unzftab, s.f.block, lost)
    && DecodeFrom(d + rem, s.f.list, s.f.bytes, s.f.block, lost, s.m.nblockMAX) == o
  }

  /** The digits read so far are summed up. */
  predicate Sums(s: State, d: seq<nat>) {
    s.m.es == ToInt32(RunValue(d) - 1) && s.m.n == ToInt32(Pow2(|d|))
  }

  predicate Summed(s: State, d: seq<nat>) {
    d != [] && Sums(s, d)
  }

  lemma {:induction false} SumsIs(s: State, d: seq<nat>)
    ensures Sums(s, d) <==> s.m.es == ToInt32(RunValue(d) - 1) && s.m.n == ToInt32(Pow2(|d|))
  {
  }

  /** What the symbols leave alone. */
  predicate Beside(f: Fields, f': Fields) {
    f' == f.(list := f'.list, unzftab := f'.unzftab, block := f'.block)
  }

  /** The block is there, with its counts, exactly when it fits and has the start row. */
  ghost predicate Settled(f: Fields, s': State, o: Outcome) {
    if o.Done? && 0 <= f.origPtr < |o.text| then
      s'.at == Output && s'.f.block == o.text && Tally(s'.f.unzftab, o.text, o.lost) && Beside(f, s'.f)
    else s'.at == BadData
  }

  lemma {:induction false} BesideIs(f: Fields, f': Fields)
    requires Beside(f, f')
    ensures f'.len == f.len && f'.selector == f.selector && f'.bytes == f.bytes && f'.origPtr == f.origPtr
  {
  }

  lemma {:induction false} SettledBeside(f: Fields, f1: Fields, s': State, o: Outcome)
    requires Beside(f, f1) && Settled(f1, s', o)
    ensures Settled(f, s', o)
  {
    hide Tally;
  }

  // One symbol asked for.

  lemma {:induction false} GroupOf(no: int, pos: int, q: nat)
    requires 0 <= pos < 50 && no * 50 + 50 - pos == q + 1
    ensures no == q / 50
  {
  }

  lemma {:induction false} NextAsked(u: State, site: Site, q: nat)
    requires u.Base() && u.TablesKnown() && u.Receiving() && Asked(u, q) && q < 50 * |u.f.selector|
    requires (u.m.groupNo == -1 && u.m.groupPos == 0) || u.GroupAtHand()
    ensures var w := u.NextSymbol(site);
      && w.Valid() && w.at == MtfCode(site) && Asked(w, q + 1) && w.f == u.f
      && w.m.es == u.m.es && w.m.n == u.m.n && w.m.nblockMAX == u.m.nblockMAX
  {
    hide Tables.For, Alphabet;
    u.NextSymbolValid(site);
  }

  lemma {:induction false} WholeTail(rem: seq<nat>, bytes: Text)
    requires Whole(rem, bytes) && rem[0] <= |bytes|
    ensures |rem| >= 2 && Whole(rem[1..], bytes)
  {
    assert rem[1..][|rem| - 2] == rem[|rem| - 1];
  }

  lemma {:induction false} TowardFacts(s: State, q: nat, rem: seq<nat>, d: seq<nat>, lost: Losses, o: Outcome)
    requires Toward(s, q, rem, d, lost, o)
    ensures s.Base() && s.InCode() && AllKraft(s.f) && Asked(s, q + 1) && Whole(rem, s.f.bytes) && |s.f.bytes| >= 1 && rem != []
    ensures s.TablesKnown() && s.Receiving() && s.GroupAtHand() && SymbolsIn(rem, s.f.bytes) && SymbolsIn(d + rem, s.f.bytes)
    ensures Alphabet(s.f.list, s.f.bytes) && s.m.eob == |s.f.bytes| + 1 && s.m.nblock == |s.f.block| && s.m.nblockMAX >= 0
    ensures Tally(s.f.unzftab, s.f.block, lost) && q + |rem| <= 50 * |s.f.selector|
    ensures DecodeFrom(d + rem, s.f.list, s.f.bytes, s.f.block, lost, s.m.nblockMAX) == o
    ensures RUNA == 0 && RUNB == 1 && forall i :: 0 <= i < |d| ==> d[i] <= RUNB
  {
    hide Tables.For, Tally, DecodeFrom, Alphabet;
    forall i | 0 <= i < |rem| ensures rem[i] <= |s.f.bytes| + 1 {
      assert (d + rem)[|d| + i] == rem[i];
    }
  }

  lemma {:induction false} NowToward(s: State, q: nat, rem: seq<nat>, d: seq<nat>, lost: Losses, o: Outcome)
    requires s.Base() && s.InCode() && AllKraft(s.f) && Asked(s, q + 1) && q + |rem| <= 50 * |s.f.selector|
    requires Whole(rem, s.f.bytes) && (forall i :: 0 <= i < |d| ==> d[i] <= RUNB)
    requires s.m.nblockMAX >= 0 && SymbolsIn(d + rem, s.f.bytes) && Tally(s.f.unzftab, s.f.block, lost)
    requires DecodeFrom(d + rem, s.f.list, s.f.bytes, s.f.block, lost, s.m.nblockMAX) == o
    ensures Toward(s, q, rem, d, lost, o)
  {
    hide State.Base, State.InCode, AllKraft, DecodeFrom, Tally;
  }

  /** A label that asks for a symbol has all that the symbol loop needs. */
  lemma {:induction false} AskedFor(w: State)
    requires w.Valid() && w.at.MtfCode?
    ensures w.Base() && w.InCode()
  {
  }

  /** A run digit is added up and the next symbol asked for. */
  lemma {:induction false} DigitTaken(t: State, q: nat, rem: seq<nat>, d: seq<nat>, lost: Losses, o: Outcome)
    requires Toward(t, q, rem, d, lost, o) && t.m.nextSym == rem[0] <= RUNB && Sums(t, d)
    ensures var w := t.AddDigit();
      && w.Valid() && w.at == MtfCode(InRun) && w.f == t.f && Toward(w, q + 1, rem[1..], d + [rem[0]], lost, o)
      && Summed(w, d + [rem[0]])
  {
    hide *;
    TowardFacts(t, q, rem, d, lost, o);
    WholeTail(rem, t.f.bytes);
    SumsIs(t, d);
    var u := DigitAdded(t, rem[0], q + 1);
    NextAsked(u, InRun, q + 1);
    var w := u.NextSymbol(InRun);
    AskedFor(w);
    DigitSum(d, rem[0]);
    assert d + [rem[0]] + rem[1..] == d + rem;
    SameKraft(t.f, w.f);
    NowToward(w, q + 1, rem[1..], d + [rem[0]], lost, o);
    NowSummed(w, d + [rem[0]]);
  }

  lemma {:induction false} NowSummed(s: State, d: seq<nat>)
    requires d != [] && s.m.es == ToInt32(RunValue(d) - 1) && s.m.n == ToInt32(Pow2(|d|))
    ensures Summed(s, d)
  {
  }

  lemma {:induction false} SameKraft(f: Fields, f': Fields)
    requires AllKraft(f) && f'.len == f.len
    ensures AllKraft(f')
  {
    hide Codes;
  }

  lemma {:induction false} DigitAdded(t: State, x: nat, q: nat) returns (u: State)
    requires t.Base() && t.InCode() && t.m.nextSym == x <= RUNB && Asked(t, q)
    ensures Asked(u, q) && u.SelectorsKnown() && |u.f.tables| == u.m.nGroups
    ensures u.Base() && u.InCode() && u.TablesKnown() && u.Receiving() && u.GroupAtHand() && u.f == t.f
    ensures u.m == t.m.(es := ToInt32(t.m.es + (x + 1) * t.m.n), n := ToInt32(t.m.n * 2))
    ensures t.AddDigit() == u.NextSymbol(InRun)
  {
    hide Tables.For, Alphabet, ToInt32, State.NextSymbol;
    u := t.(m := t.m.(es := ToInt32(t.m.es + (x + 1) * t.m.n), n := ToInt32(t.m.n * 2)));
  }

  lemma {:induction false} DigitSum(d: seq<nat>, x: nat)
    requires x <= RUNB
    ensures ToInt32(RunValue(d + [x]) - 1) == ToInt32(ToInt32(RunValue(d) - 1) + (x + 1) * ToInt32(Pow2(|d|)))
    ensures ToInt32(Pow2(|d + [x]|)) == ToInt32(ToInt32(Pow2(|d|)) * 2)
  {
    hide ToInt32, RunValue;
    RunValueAppend(d, x);
    Int32Accumulate(RunValue(d) - 1, Pow2(|d|), x + 1);
  }

  /** A literal is moved to the front, counted and stored, and the next symbol asked for;
      or the block is full. */
  lemma {:induction false} LiteralTaken(t: State, q: nat, rem: seq<nat>, lost: Losses, o: Outcome)
    requires Toward(t, q, rem, [], lost, o) && RUNB < t.m.nextSym == rem[0] <= |t.f.bytes|
    ensures t.m.nextSym < t.m.eob
    ensures var w := t.Literal();
      if o == TooLong && t.m.nblock >= t.m.nblockMAX then w == t.Go(BadData)
      else w.Valid() && w.at == MtfCode(AfterLiteral) && Beside(t.f, w.f) && Toward(w, q + 1, rem[1..], [], lost, o)
  {
    hide *;
    TowardFacts(t, q, rem, [], lost, o);
    WholeTail(rem, t.f.bytes);
    var max: nat := t.m.nblockMAX;
    assert [] + rem == rem && rem[0..] == rem;
    StepEnd(rem, 0, t.f.list, t.f.bytes, t.f.block, lost, max);
    if t.m.nblock >= max {
      LiteralFull(t);
    } else {
      StepLiteral(rem, 0, t.f.list, t.f.bytes, t.f.block, lost, max);
      var u := LiteralStored(t, rem[0], q + 1, lost);
      BesideIs(t.f, u.f);
      NextAsked(u, AfterLiteral, q + 1);
      var w := u.NextSymbol(AfterLiteral);
      AskedFor(w);
      BesideIs(t.f, w.f);
      SameKraft(t.f, w.f);
      assert [] + rem[1..] == rem[1..];
      NowToward(w, q + 1, rem[1..], [], lost, o);
    }
  }

  lemma {:induction false} LiteralFull(t: State)
    requires t.InCode() && RUNB < t.m.nextSym < t.m.eob && t.m.nblock >= t.m.nblockMAX
    ensures t.Literal() == t.Go(BadData)
  {
  }

  lemma {:induction false} LiteralStored(t: State, x: nat, q: nat, lost: Losses) returns (u: State)
    requires t.Base() && t.InCode() && RUNB < t.m.nextSym == x < t.m.eob && t.m.nblock < t.m.nblockMAX
    requires Asked(t, q) && Tally(t.f.unzftab, t.f.block, lost)
    ensures t.f.list[x - 1] < |t.f.bytes| && |t.f.list| == 256
    ensures Asked(u, q) && u.SelectorsKnown() && |u.f.tables| == u.m.nGroups
    ensures u.Base() && u.TablesKnown() && u.Receiving() && u.GroupAtHand()
    ensures Beside(t.f, u.f) && u.f.list == ToFront(t.f.list, x - 1) && u.f.block == t.f.block + [t.f.bytes[t.f.list[x - 1]]]
    ensures Tally(u.f.unzftab, u.f.block, lost) && u.m.nblockMAX == t.m.nblockMAX
    ensures t.Literal() == u.NextSymbol(AfterLiteral)
  {
    hide Tables.For, ToInt32, ToFront, Tally, State.NextSymbol;
    var k := x - 1;
    AlphabetKept(t.f.list, t.f.bytes, k);
    var c := t.f.bytes[t.f.list[k]];
    TallyRun(t.f.unzftab, t.f.block, lost, c, 1);
    LoseNothing(lost, c, 1);
    assert Repeat(c, 1) == [c];
    u := t.(f := t.f.(list := ToFront(t.f.list, k), unzftab := t.f.unzftab[c := ToInt32(t.f.unzftab[c] + 1)], block := t.f.block + [c]),
            m := t.m.(uc := t.f.list[k], nblock := t.m.nblock + 1));
  }

  /** What digits d and the symbols that end them stand for. */
  lemma {:induction false} RunRead(d: seq<nat>, rem: seq<nat>, list: Text, bytes: Text, text: Text, lost: Losses, max: nat)
    requires Alphabet(list, bytes) && SymbolsIn(d + rem, bytes) && SymbolsIn(rem, bytes)
    requires d != [] && (forall i :: 0 <= i < |d| ==> d[i] <= RUNB) && rem != [] && rem[0] > RUNB
    ensures DecodeFrom(d + rem, list, bytes, text, lost, max)
         == DecodeRest(rem, list, bytes, text, lost, ToInt32(RunValue(d)), max)
  {
    hide RunValue, ToInt32, DecodeRest, DecodeFrom, LeadingDigits;
    var syms := d + rem;
    LeadingOf(d, rem);
    assert syms[0..] == syms && syms[0..|d|] == d && syms[|d|..] == rem;
    StepRun(syms, 0, list, bytes, text, lost, max);
  }

  /** A run is counted and stored, and the symbol that ended it is next; or it does not
      fit. */
  lemma {:induction false} RunEnded(t: State, q: nat, rem: seq<nat>, d: seq<nat>, lost: Losses, o: Outcome)
    returns (u: State, lost': Losses, fits: bool)
    requires Toward(t, q, rem, d, lost, o) && Summed(t, d) && RUNB < t.m.nextSym == rem[0] <= t.m.eob
    ensures fits ==> u.m.nextSym == t.m.nextSym <= u.m.eob && Toward(u, q, rem, [], lost', o) && Beside(t.f, u.f)
    ensures fits ==> t.EndRun() == u.LoopTop()
    ensures !fits ==> o == TooLong && t.EndRun().at == BadData
  {
    hide *;
    TowardFacts(t, q, rem, d, lost, o);
    SummedIs(t, d);
    var max: nat, es := t.m.nblockMAX, ToInt32(t.m.es + 1);
    RunRead(d, rem, t.f.list, t.f.bytes, t.f.block, lost, max);
    StepRest(rem, t.f.list, t.f.bytes, t.f.block, lost, es, max);
    AlphabetFront(t.f.list, t.f.bytes);
    lost' := Lose(lost, t.f.bytes[t.f.list[0]], es);
    fits, u := true, t;
    if es > 0 && t.m.nblock + es > max {
      fits := false;
      RunTooLong(t, es);
    } else {
      u := RunStored(t, es, q + 1, lost);
      BesideIs(t.f, u.f);
      SameKraft(t.f, u.f);
      assert [] + rem == rem;
      NowToward(u, q, rem, [], lost', o);
    }
  }

  lemma {:induction false} SummedIs(t: State, d: seq<nat>)
    requires Summed(t, d)
    ensures d != [] && ToInt32(t.m.es + 1) == ToInt32(RunValue(d))
  {
    hide ToInt32, RunValue;
    Int32Accumulate(RunValue(d) - 1, 0, 1);
  }

  lemma {:induction false} RunTooLong(t: State, es: int)
    requires t.InCode() && RUNB < t.m.nextSym <= t.m.eob && es == ToInt32(t.m.es + 1) && es > 0 && t.m.nblock + es > t.m.nblockMAX
    ensures t.EndRun().at == BadData
  {
    hide ToInt32, Tables.For;
    AlphabetFront(t.f.list, t.f.bytes);
  }

  lemma {:induction false} RunStored(t: State, es: int, q: nat, lost: Losses) returns (u: State)
    requires t.Base() && t.InCode() && RUNB < t.m.nextSym <= t.m.eob && Asked(t, q) && Tally(t.f.unzftab, t.f.block, lost)
    requires es == ToInt32(t.m.es + 1) && (es <= 0 || t.m.nblock + es <= t.m.nblockMAX)
    ensures |t.f.list| == 256 && t.f.list[0] < |t.f.bytes|
    ensures u.Base() && u.InCode() && Asked(u, q) && u.m.nextSym == t.m.nextSym && u.m.eob == t.m.eob && t.EndRun() == u.LoopTop()
    ensures Beside(t.f, u.f) && u.f.list == t.f.list && u.m.nblockMAX == t.m.nblockMAX
    ensures var c := t.f.bytes[t.f.list[0]];
      && u.f.block == t.f.block + Repeat(c, if es > 0 then es else 0)
      && Tally(u.f.unzftab, u.f.block, Lose(lost, c, es))
  {
    hide Tables.For, ToInt32, Tally, State.LoopTop, Lose, Alphabet;
    AlphabetFront(t.f.list, t.f.bytes);
    var c := t.f.bytes[t.f.list[0]];
    TallyRun(t.f.unzftab, t.f.block, lost, c, es);
    assert t.f.block + Repeat(c, 0) == t.f.block;
    var s := t.(f := t.f.(unzftab := t.f.unzftab[c := ToInt32(t.f.unzftab[c] + es)]), m := t.m.(es := es, uc := c));
    u := if es <= 0 then s else s.(f := s.f.(block := s.f.block + Repeat(c, es)), m := s.m.(es := 0, nblock := s.m.nblock + es));
  }

  // ------------------------------------------------------------ the whole loop

  lemma {:induction false} TowardSpelled(s: State, q: nat, rem: seq<nat>, d: seq<nat>, lost: Losses, o: Outcome)
    requires Toward(s, q, rem, d, lost, o)
    ensures Spelled(s.f.len, s.f.selector, rem, q) && Spelled(s.f.len, s.f.selector, rem[1..], q + 1)
  {
    hide Tables.For, Tally, DecodeFrom, Alphabet, Toward, AllKraft, Asked;
    TowardFacts(s, q, rem, d, lost, o);
    forall k, i | 0 <= k < |s.f.len| && 0 <= i < |rem| ensures rem[i] < |s.f.len[k]| {
      assert s.GoodLengths(s.f.len[k]);
    }
  }

  /** From a label that asks for a symbol. */
  ghost predicate Asking(s: State, q: nat, rem: seq<nat>, d: seq<nat>, lost: Losses, o: Outcome)
    ensures Asking(s, q, rem, d, lost, o) ==> s.Valid() && Spelled(s.f.len, s.f.selector, rem, q)
  {
    TowardSpelled'(s, q, rem, d, lost, o);
    s.Valid() && s.at.MtfCode? && Toward(s, q, rem, d, lost, o) && (if s.at.site == InRun then Summed(s, d) else d == [])
  }

  lemma {:induction false} TowardSpelled'(s: State, q: nat, rem: seq<nat>, d: seq<nat>, lost: Losses, o: Outcome)
    ensures Toward(s, q, rem, d, lost, o) ==> Spelled(s.f.len, s.f.selector, rem, q)
  {
    hide *;
    if Toward(s, q, rem, d, lost, o) { TowardSpelled(s, q, rem, d, lost, o); }
  }

  lemma {:induction false} AskingIs(s: State, q: nat, rem: seq<nat>, d: seq<nat>, lost: Losses, o: Outcome)
    requires Asking(s, q, rem, d, lost, o)
    ensures s.Valid() && s.at.MtfCode? && Toward(s, q, rem, d, lost, o) && rem != [] && s.InCode()
    ensures (s.at.site == InRun ==> Summed(s, d) && Sums(s, d)) && (s.at.site != InRun ==> d == [])
    ensures Spelled(s.f.len, s.f.selector, rem, q) && Spelled(s.f.len, s.f.selector, rem[1..], q + 1)
  {
    hide State.Valid, Toward, RunValue, Pow2, ToInt32;
    TowardSpelled(s, q, rem, d, lost, o);
  }

  lemma {:induction false} NowAsking(w: State, q: nat, rem: seq<nat>, d: seq<nat>, lost: Losses, o: Outcome)
    requires w.Valid() && w.at.MtfCode? && Toward(w, q, rem, d, lost, o)
    requires if w.at.site == InRun then Summed(w, d) else d == []
    ensures Asking(w, q, rem, d, lost, o)
  {
    hide State.Valid, Toward, Summed;
  }

  /** The code of the group at hand. */
  lemma {:induction false} AskedCode(s: State, q: nat, rem: seq<nat>, d: seq<nat>, lost: Losses, o: Outcome) returns (len: Lengths)
    requires Asking(s, q, rem, d, lost, o) && rem != []
    ensures CodeOf(s, len) && Kraft(len) && rem[0] < |len| && q / 50 < |s.f.selector|
    ensures s.f.selector[q / 50] < |s.f.len| && len == s.f.len[s.f.selector[q / 50]]
  {
    hide Tables.For, Tally, DecodeFrom, Alphabet, State.Valid, Toward, Kraft;
    TowardFacts(s, q, rem, d, lost, o);
    TowardSpelled(s, q, rem, d, lost, o);
    GroupOf(s.m.groupNo, s.m.groupPos, q);
    assert Codes(s.f.len[s.m.gSel]);
    len := s.f.len[s.m.gSel];
  }

  lemma {:induction false} SameToward(s: State, t: State, q: nat, rem: seq<nat>, d: seq<nat>, lost: Losses, o: Outcome)
    requires Toward(s, q, rem, d, lost, o) && t.Base() && t.InCode() && t.f == s.f
    requires t.m == s.m.(zn := t.m.zn, zvec := t.m.zvec, zj := t.m.zj, nextSym := t.m.nextSym)
    ensures Toward(t, q, rem, d, lost, o) && t.m.eob == s.m.eob && (Sums(s, d) ==> Sums(t, d)) && (Summed(s, d) ==> Summed(t, d))
  {
    hide State.Base, State.InCode, Tally, DecodeFrom, AllKraft, Whole, RunValue;
  }

  /** What is done with a symbol depends on where it was asked for. */
  lemma {:induction false} Symbol(t: State, site: Site)
    requires t.InCode() && 0 <= t.m.nextSym <= t.m.eob
    ensures site != InRun ==> t.GotSymbol(site) == t.LoopTop()
    ensures site == InRun && t.m.nextSym <= RUNB ==> t.GotSymbol(site) == t.AddDigit()
    ensures site == InRun && t.m.nextSym > RUNB ==> t.GotSymbol(site) == t.EndRun()
  {
    hide State.InCode, State.LoopTop, State.AddDigit, State.EndRun;
  }

  lemma {:induction false} FirstSymbol(s: State, q: nat, rem: seq<nat>, len: Lengths)
    requires rem != [] && Spelled(s.f.len, s.f.selector, rem, q) && Spelled(s.f.len, s.f.selector, rem[1..], q + 1)
    requires q / 50 < |s.f.selector| && s.f.selector[q / 50] < |s.f.len| && len == s.f.len[s.f.selector[q / 50]]
    requires rem[0] < |len|
    ensures SymbolBits(s.f.len, s.f.selector, rem, q) == Codeword(len, rem[0]) + SymbolBits(s.f.len, s.f.selector, rem[1..], q + 1)
  {
    hide Codeword;
  }

  lemma {:induction false} StoppedBad(s: State)
    requires s.at == BadData
    ensures s.at.Stopped() && s.at.BadData?
  {
  }

  lemma {:induction false} SettledBad(f: Fields, s': State, o: Outcome)
    requires o == TooLong && s'.at == BadData
    ensures Settled(f, s', o)
  {
  }

  /** The end of block: the start row is looked for. */
  lemma {:induction false} Finished(u: State, q: nat, rem: seq<nat>, lost: Losses, o: Outcome)
    requires Toward(u, q, rem, [], lost, o) && u.m.nextSym == rem[0] == u.m.eob && rem[0] > |u.f.bytes|
    requires Spelled(u.f.len, u.f.selector, rem[1..], q + 1)
    ensures Settled(u.f, u.LoopTop(), o) && Comes(u.LoopTop(), SymbolBits(u.f.len, u.f.selector, rem[1..], q + 1), u.LoopTop())
  {
    hide *;
    TowardFacts(u, q, rem, [], lost, o);
    EndOnly(rem, u.f.bytes);
    assert [] + rem == rem && rem[0..] == rem;
    var max: nat := u.m.nblockMAX;
    StepEnd(rem, 0, u.f.list, u.f.bytes, u.f.block, lost, max);
    u.LoopTopValid();
    NoBitsLeft(u.f.len, u.f.selector, rem[1..], q + 1);
    Finishes(u, lost, o);
    ComesNow(u.LoopTop(), []);
  }

  lemma {:induction false} EndOnly(rem: seq<nat>, bytes: Text)
    requires Whole(rem, bytes) && rem[0] > |bytes|
    ensures rem == [|bytes| + 1] && rem[1..] == []
  {
    assert |rem| == 1;
  }

  lemma {:induction false} NoBitsLeft(len: seq<Text>, selector: seq<nat>, syms: seq<nat>, q: nat)
    requires Spelled(len, selector, syms, q) && syms == []
    ensures SymbolBits(len, selector, syms, q) == []
  {
  }

  lemma {:induction false} Finishes(u: State, lost: Losses, o: Outcome)
    requires u.InCode() && u.m.nextSym == u.m.eob && o == Done(u.f.block, lost) && Tally(u.f.unzftab, u.f.block, lost)
    ensures u.LoopTop().at.Stopped() && Settled(u.f, u.LoopTop(), o)
  {
    hide Tables.For, Tally, Alphabet;
  }

  /** What the top of the loop does with a symbol that is not the end. */
  lemma {:induction false} TopIs(u: State)
    requires u.InCode() && 0 <= u.m.nextSym < u.m.eob
    ensures u.m.nextSym > RUNB ==> u.LoopTop() == u.Literal()
    ensures u.m.nextSym <= RUNB ==> u.(m := u.m.(es := -1, n := 1)).InCode()
    ensures u.m.nextSym <= RUNB ==> u.LoopTop() == u.(m := u.m.(es := -1, n := 1)).AddDigit()
  {
    hide State.Literal, State.AddDigit, Tables.For, Alphabet;
  }

  lemma {:induction false} StartToward(u: State, q: nat, rem: seq<nat>, lost: Losses, o: Outcome)
    requires Toward(u, q, rem, [], lost, o)
    ensures var t := u.(m := u.m.(es := -1, n := 1)); Toward(t, q, rem, [], lost, o) && Sums(t, [])
  {
    hide Tables.For, Tally, DecodeFrom, AllKraft, Whole, Alphabet;
  }

  lemma {:induction false} TooFull(u: State)
    requires u.Base() && u.InCode() && RUNB < u.m.nextSym < u.m.eob && u.m.nblock >= u.m.nblockMAX
    ensures u.Literal().at == BadData && u.Literal().Valid() && u.Literal().at.Stopped()
  {
    hide Tables.For, Alphabet;
  }

  /** The codewords of all symbols still to come make the machine settle. */
  lemma {:induction false} LoopTaken(s: State, q: nat, rem: seq<nat>, d: seq<nat>, lost: Losses, o: Outcome) returns (s': State)
    requires Asking(s, q, rem, d, lost, o)
    ensures Settled(s.f, s', o) && Comes(s, SymbolBits(s.f.len, s.f.selector, rem, q), s')
    decreases |rem|, 1
  {
    hide *;
    AskingIs(s, q, rem, d, lost, o);
    var len: Lengths := AskedCode(s, q, rem, d, lost, o);
    var t := CodeTaken(s, len, rem[0]);
    SameToward(s, t, q, rem, d, lost, o);
    if s.at.site != InRun {
      s' := TopTaken(t, q, rem, lost, o);
    } else if t.m.nextSym <= RUNB {
      DigitTaken(t, q, rem, d, lost, o);
      var w := t.AddDigit();
      NowAsking(w, q + 1, rem[1..], d + [rem[0]], lost, o);
      s' := LoopTaken(w, q + 1, rem[1..], d + [rem[0]], lost, o);
    } else {
      var u, lost', fits := RunEnded(t, q, rem, d, lost, o);
      if fits {
        s' := TopTaken(u, q, rem, lost', o);
        BesideIs(t.f, u.f);
        SettledBeside(t.f, u.f, s', o);
      } else {
        s' := t.EndRun();
        SettledBad(t.f, s', o);
        t.EndRunValid();
        StoppedBad(s');
        ComesNow(s', SymbolBits(s.f.len, s.f.selector, rem[1..], q + 1));
      }
    }
    Symbol(t, s.at.site);
    ComesAfter(s, Codeword(len, rem[0]), t.GotSymbol(s.at.site), SymbolBits(s.f.len, s.f.selector, rem[1..], q + 1), s');
    FirstSymbol(s, q, rem, len);
  }

  /** The same from the top of the loop, with the next symbol at hand. */
  lemma {:induction false} TopTaken(u: State, q: nat, rem: seq<nat>, lost: Losses, o: Outcome) returns (s': State)
    requires Toward(u, q, rem, [], lost, o) && u.m.nextSym == rem[0] <= u.m.eob
    ensures Spelled(u.f.len, u.f.selector, rem[1..], q + 1)
    ensures Settled(u.f, s', o) && Comes(u.LoopTop(), SymbolBits(u.f.len, u.f.selector, rem[1..], q + 1), s')
    decreases |rem|, 0
  {
    hide *;
    TowardFacts(u, q, rem, [], lost, o);
    TowardSpelled(u, q, rem, [], lost, o);
    if rem[0] > |u.f.bytes| {
      s' := u.LoopTop();
      Finished(u, q, rem, lost, o);
      return;
    }
    WholeTail(rem, u.f.bytes);
    var w := u.LoopTop();
    TopIs(u);
    if rem[0] <= RUNB {
      var t := u.(m := u.m.(es := -1, n := 1));
      StartToward(u, q, rem, lost, o);
      DigitTaken(t, q, rem, [], lost, o);
      assert [] + [rem[0]] == [rem[0]];
      NowAsking(w, q + 1, rem[1..], [rem[0]], lost, o);
      s' := LoopTaken(w, q + 1, rem[1..], [rem[0]], lost, o);
    } else {
      LiteralTaken(u, q, rem, lost, o);
      if o == TooLong && u.m.nblock >= u.m.nblockMAX {
        s' := w;
        TooFull(u);
        SettledBad(u.f, w, o);
        StoppedBad(w);
        ComesNow(w, SymbolBits(u.f.len, u.f.selector, rem[1..], q + 1));
      } else {
        NowAsking(w, q + 1, rem[1..], [], lost, o);
        s' := LoopTaken(w, q + 1, rem[1..], [], lost, o);
        BesideIs(u.f, w.f);
        SettledBeside(u.f, w.f, s', o);
      }
    }
  }
}
