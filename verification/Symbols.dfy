/** From decoded symbols to the transformed block: zero runs in bijective base
    two, move-to-front indices, and the map of bytes in use. */
module Symbols {
  import opened Bits
  import opened BwtSpec
  import opened InverseBwt
  import opened RunLength
  import opened MoveToFront
  import opened BlockOutput

  const RUNA: nat := 0
  const RUNB: nat := 1

  // ---------------------------------------------------------------- run lengths

  /** Bijective base two, least significant digit first; RUNA is 1, RUNB is 2. */
  function RunValue(digits: seq<nat>): nat {
    if digits == [] then 0 else digits[0] + 1 + 2 * RunValue(digits[1..])
  }

  function RunDigits(n: nat): (d: seq<nat>)
    ensures forall i :: 0 <= i < |d| ==> d[i] <= RUNB
  {
    if n == 0 then [] else [(n - 1) % 2] + RunDigits((n - 1) / 2)
  }

  /** Every run length has a code … */
  lemma {:induction false} RunValueOfDigits(n: nat)
    ensures RunValue(RunDigits(n)) == n
  {
    if n != 0 {
      RunValueOfDigits((n - 1) / 2);
      assert RunDigits(n)[1..] == RunDigits((n - 1) / 2);
    }
  }

  /** … and only one. */
  lemma {:induction false} RunDigitsOfValue(d: seq<nat>)
    requires forall i :: 0 <= i < |d| ==> d[i] <= RUNB
    ensures RunDigits(RunValue(d)) == d
  {
    if d != [] {
      RunDigitsOfValue(d[1..]);
      assert d == [d[0]] + d[1..];
    }
  }

  lemma {:induction false} RunValueAppend(d: seq<nat>, x: nat)
    ensures RunValue(d + [x]) == RunValue(d) + (x + 1) * Pow2(|d|)
  {
    if d == [] {
      assert [] + [x] == [x];
      assert [x][1..] == [];
    } else {
      RunValueAppend(d[1..], x);
      assert (d + [x])[1..] == d[1..] + [x];
      assert (x + 1) * (2 * Pow2(|d| - 1)) == 2 * ((x + 1) * Pow2(|d| - 1));
    }
  }

  /** A two's complement 32-bit integer. */
  function ToInt32(x: int): int {
    (x + 0x8000_0000) % 0x1_0000_0000 - 0x8000_0000
  }

  lemma {:induction false} Int32Period(x: int, y: int, k: int)
    requires x == y + 0x1_0000_0000 * k
    ensures ToInt32(x) == ToInt32(y)
  {
  }

  lemma {:induction false} Int32Quotient(x: int) returns (k: int)
    ensures ToInt32(x) == x + 0x1_0000_0000 * k
  {
    k := -((x + 0x8000_0000) / 0x1_0000_0000);
  }

  /** The accumulator may wrap after every step or once at the end. */
  lemma {:induction false} Int32Accumulate(es: int, n: int, x: int)
    requires 1 <= x <= 2
    ensures ToInt32(ToInt32(es) + x * ToInt32(n)) == ToInt32(es + x * n)
    ensures ToInt32(ToInt32(n) * 2) == ToInt32(n * 2)
    ensures ToInt32(ToInt32(es) + 1) == ToInt32(es + 1)
  {
    var j := Int32Quotient(es);
    var k := Int32Quotient(n);
    if x == 1 {
      Int32Period(ToInt32(es) + ToInt32(n), es + n, j + k);
    } else {
      Int32Period(ToInt32(es) + 2 * ToInt32(n), es + 2 * n, j + 2 * k);
    }
    Int32Period(ToInt32(n) * 2, n * 2, 2 * k);
    Int32Period(ToInt32(es) + 1, es + 1, j);
  }

  lemma {:induction false} RunValueBound(d: seq<nat>)
    requires forall i :: 0 <= i < |d| ==> d[i] <= RUNB
    ensures RunValue(d) <= 2 * (Pow2(|d|) - 1)
  {
    if d != [] { RunValueBound(d[1..]); }
  }

  /** The 32-bit accumulator holds the run length exactly when it is below 2^31. */
  lemma {:induction false} RunExactIff(d: seq<nat>)
    ensures ToInt32(RunValue(d)) == RunValue(d) <==> RunValue(d) < 0x8000_0000
  {
    Int32Exact(RunValue(d));
  }

  lemma {:induction false} Int32Exact(n: nat)
    ensures ToInt32(n) == n <==> n < 0x8000_0000
  {
  }

  /** Up to thirty digits it does. */
  lemma {:induction false} ShortRunsExact(d: seq<nat>)
    requires |d| <= 30 && forall i :: 0 <= i < |d| ==> d[i] <= RUNB
    ensures RunValue(d) < 0x8000_0000
  {
    RunValueBound(d);
    Pow2Mono(|d|, 30);
    Pow2Add(30, 2);
    Pow2Values();
    assert Pow2(30) * 4 == 0x1_0000_0000;
  }

  /** Beyond that it does not: thirty-one RUNB digits wrap to a negative run. */
  lemma {:induction false} LongRunWraps(d: seq<nat>)
    requires |d| == 31 && forall i :: 0 <= i < |d| ==> d[i] == RUNB
    ensures RunValue(d) == 0xffff_fffe && ToInt32(RunValue(d)) == -2
  {
    AllB(d);
    Pow2Add(16, 15);
    Pow2Add(15, 1);
    Pow2Values();
    assert Pow2(15) == 32768;
  }

  lemma {:induction false} AllB(d: seq<nat>)
    requires forall i :: 0 <= i < |d| ==> d[i] == RUNB
    ensures RunValue(d) == 2 * (Pow2(|d|) - 1)
  {
    if d != [] { AllB(d[1..]); }
  }

  // ------------------------------------------------------------ decoding symbols

  /** How many of the leading symbols are run digits. */
  function LeadingDigits(syms: seq<nat>): (k: nat)
    ensures k <= |syms| && (forall i :: 0 <= i < k ==> syms[i] <= RUNB)
    ensures k < |syms| ==> syms[k] > RUNB
  {
    if syms == [] || syms[0] > RUNB then 0
    else
      var k := LeadingDigits(syms[1..]);
      assert forall i :: 0 < i < k + 1 ==> syms[i] == syms[1..][i - 1];
      k + 1
  }

  /** For each byte, the counts of its runs that came out negative, added up. */
  type Losses = s: seq<int> | |s| == 256 witness seq(256, _ => 0)

  function NoLoss(): Losses {
    seq(256, _ => 0)
  }

  datatype Outcome = Done(text: Text, lost: Losses) | TooLong | Unfinished

  /** The alphabet: bytes gives the bytes in use, the symbols are RUNA, RUNB, the
      nonzero move-to-front indices plus one, and the end of block. */
  predicate Alphabet(list: Text, bytes: Text) {
    && 1 <= |bytes| <= 256 && |list| == 256
    && forall k :: 0 <= k < |bytes| ==> list[k] < |bytes|
  }

  lemma {:induction false} AlphabetKept(list: Text, bytes: Text, n: nat)
    requires Alphabet(list, bytes) && n < |bytes|
    ensures Alphabet(ToFront(list, n), bytes)
  {
    forall k | 0 <= k < |bytes| ensures ToFront(list, n)[k] < |bytes| {
      ToFrontAt(list, n, k);
    }
  }

  predicate SymbolsIn(syms: seq<nat>, bytes: Text) {
    forall i :: 0 <= i < |syms| ==> syms[i] <= |bytes| + 1
  }

  /** The block that syms stand for, after text has been decoded. */
  function DecodeFrom(syms: seq<nat>, list: Text, bytes: Text, text: Text, lost: Losses, max: nat): Outcome
    requires Alphabet(list, bytes) && SymbolsIn(syms, bytes)
    decreases |syms|, 0
  {
    if syms == [] then Unfinished
    else if syms[0] == |bytes| + 1 then Done(text, lost)
    else if syms[0] <= RUNB then
      var k := LeadingDigits(syms);
      if k == |syms| then Unfinished
      else DecodeRest(syms[k..], list, bytes, text, lost, ToInt32(RunValue(syms[..k])), max)
    else if |text| >= max then TooLong
    else
      var n := syms[0] - 1;
      AlphabetKept(list, bytes, n);
      DecodeFrom(syms[1..], ToFront(list, n), bytes, text + [bytes[list[n]]], lost, max)
  }

  /** A run of es of byte c, if it is negative, put to the losses. */
  function Lose(lost: Losses, c: Byte, es: int): Losses {
    if es < 0 then lost[c := lost[c] + es] else lost
  }

  lemma {:induction false} LoseNothing(lost: Losses, c: Byte, es: int)
    requires es >= 0
    ensures Lose(lost, c, es) == lost
  {
  }

  /** The same after a run of es front bytes has been read. */
  function DecodeRest(syms: seq<nat>, list: Text, bytes: Text, text: Text, lost: Losses, es: int, max: nat): Outcome
    requires Alphabet(list, bytes) && SymbolsIn(syms, bytes)
    decreases |syms|, 1
  {
    if es <= 0 then DecodeFrom(syms, list, bytes, text, Lose(lost, bytes[list[0]], es), max)
    else if |text| + es > max then TooLong
    else DecodeFrom(syms, list, bytes, text + Repeat(bytes[list[0]], es), lost, max)
  }

  /** A block that spoils the counts: thirty-one RUNB digits before any byte. */
  lemma {:induction false} NegativeRun(list: Text, bytes: Text, d: seq<nat>, max: nat, h: seq<int>)
    requires Alphabet(list, bytes) && |d| == 31 && forall i :: 0 <= i < |d| ==> d[i] == RUNB
    ensures SymbolsIn(d + [|bytes| + 1], bytes)
    ensures DecodeFrom(d + [|bytes| + 1], list, bytes, [], NoLoss(), max) == Done([], NoLoss()[bytes[list[0]] := -2])
    ensures Tally(h, [], NoLoss()[bytes[list[0]] := -2]) ==> !Histogram(h, [])
  {
    var syms, c := d + [|bytes| + 1], bytes[list[0]];
    LeadingOf(d, [|bytes| + 1]);
    assert syms[..31] == d && syms[31..] == [|bytes| + 1];
    LongRunWraps(d);
    var lost: Losses := NoLoss()[c := -2];
    assert DecodeFrom([|bytes| + 1], list, bytes, [], lost, max) == Done([], lost);
    assert DecodeRest([|bytes| + 1], list, bytes, [], NoLoss(), -2, max) == Done([], lost);
    if Tally(h, [], lost) {
      assert h[c] == ToInt32(Count([], c) + lost[c]);
    }
  }

  // --------------------------------------------- runs as the encoding means them

  /** The block that syms stand for with run lengths of any size. */
  function Meant(syms: seq<nat>, list: Text, bytes: Text, text: Text, max: nat): Outcome
    requires Alphabet(list, bytes) && SymbolsIn(syms, bytes)
    decreases |syms|
  {
    if syms == [] then Unfinished
    else if syms[0] == |bytes| + 1 then Done(text, NoLoss())
    else if syms[0] <= RUNB then
      var k := LeadingDigits(syms);
      if k == |syms| then Unfinished
      else if |text| + RunValue(syms[..k]) > max then TooLong
      else Meant(syms[k..], list, bytes, text + Repeat(bytes[list[0]], RunValue(syms[..k])), max)
    else if |text| >= max then TooLong
    else
      var n := syms[0] - 1;
      AlphabetKept(list, bytes, n);
      Meant(syms[1..], ToFront(list, n), bytes, text + [bytes[list[n]]], max)
  }

  /** Every run before the end of block fits 32 bits. */
  predicate RunsFit(syms: seq<nat>, bytes: Text)
    decreases |syms|
  {
    if syms == [] || syms[0] == |bytes| + 1 then true
    else if syms[0] <= RUNB then
      var k := LeadingDigits(syms);
      k == |syms| || (RunValue(syms[..k]) < 0x8000_0000 && RunsFit(syms[k..], bytes))
    else RunsFit(syms[1..], bytes)
  }

  /** The decoder finds the block that is meant if every run fits 32 bits; and when
      it finds a block, only then. */
  lemma {:induction false} MeantIffRunsFit(syms: seq<nat>, list: Text, bytes: Text, text: Text, max: nat)
    requires Alphabet(list, bytes) && SymbolsIn(syms, bytes) && max < 0x8000_0000
    ensures RunsFit(syms, bytes) ==> DecodeFrom(syms, list, bytes, text, NoLoss(), max) == Meant(syms, list, bytes, text, max)
    ensures !RunsFit(syms, bytes) ==> !Meant(syms, list, bytes, text, max).Done?
    ensures var o := DecodeFrom(syms, list, bytes, text, NoLoss(), max);
      o.Done? ==> (o == Meant(syms, list, bytes, text, max) <==> RunsFit(syms, bytes))
    decreases |syms|
  {
    if syms != [] && syms[0] != |bytes| + 1 {
      if syms[0] <= RUNB {
        var k := LeadingDigits(syms);
        if k < |syms| {
          var v := RunValue(syms[..k]);
          Int32Exact(v);
          assert text + Repeat(bytes[list[0]], 0) == text;
          MeantIffRunsFit(syms[k..], list, bytes, text + Repeat(bytes[list[0]], v), max);
        }
      } else {
        var n := syms[0] - 1;
        AlphabetKept(list, bytes, n);
        MeantIffRunsFit(syms[1..], ToFront(list, n), bytes, text + [bytes[list[n]]], max);
      }
    }
  }

  // -------------------------------------------------------------- the encoder

  /** Every byte in use can be named by its place. */
  ghost predicate Reaches(list: Text, bytes: Text)
    requires Alphabet(list, bytes)
  {
    forall i: Byte :: i < |bytes| ==> i in list[..|bytes|]
  }

  lemma {:induction false} ReachesKept(list: Text, bytes: Text, n: nat)
    requires Alphabet(list, bytes) && Reaches(list, bytes) && n < |bytes|
    ensures Alphabet(ToFront(list, n), bytes) && Reaches(ToFront(list, n), bytes)
  {
    AlphabetKept(list, bytes, n);
    var list' := ToFront(list, n);
    forall i: Byte | i < |bytes| ensures i in list'[..|bytes|] {
      assert i in list[..|bytes|];
      var k :| 0 <= k < |bytes| && list[..|bytes|][k] == i;
      var k' := if k == n then 0 else if k < n then k + 1 else k;
      ToFrontAt(list, n, k');
      assert list'[..|bytes|][k'] == i;
    }
  }

  /** Where byte c stands in the list. */
  ghost function Place(list: Text, bytes: Text, c: Byte): (k: nat)
    requires Alphabet(list, bytes) && Reaches(list, bytes) && c in bytes
    ensures k < |bytes| && bytes[list[k]] == c
  {
    var i :| 0 <= i < |bytes| && bytes[i] == c;
    assert i in list[..|bytes|];
    var k :| 0 <= k < |bytes| && list[..|bytes|][k] == i;
    k
  }

  /** The symbols for zeros front bytes followed by text. */
  ghost function EncodeFrom(text: Text, list: Text, bytes: Text, zeros: nat): (syms: seq<nat>)
    requires Alphabet(list, bytes) && Reaches(list, bytes) && forall i :: 0 <= i < |text| ==> text[i] in bytes
    ensures SymbolsIn(syms, bytes)
    decreases |text|
  {
    if text == [] then RunDigits(zeros) + [|bytes| + 1]
    else
      var k := Place(list, bytes, text[0]);
      if k == 0 then EncodeFrom(text[1..], list, bytes, zeros + 1)
      else
        ReachesKept(list, bytes, k);
        RunDigits(zeros) + [k + 1] + EncodeFrom(text[1..], ToFront(list, k), bytes, 0)
  }

  lemma {:induction false} LeadingOf(d: seq<nat>, tail: seq<nat>)
    requires (forall i :: 0 <= i < |d| ==> d[i] <= RUNB) && tail != [] && tail[0] > RUNB
    ensures LeadingDigits(d + tail) == |d|
  {
    if d == [] {
      assert d + tail == tail;
    } else {
      LeadingOf(d[1..], tail);
      assert (d + tail)[1..] == d[1..] + tail;
    }
  }

  lemma {:induction false} DecodeRun(z: nat, tail: seq<nat>, list: Text, bytes: Text, text: Text, max: nat)
    requires Alphabet(list, bytes) && SymbolsIn(tail, bytes) && tail != [] && tail[0] > RUNB
    requires |text| + z <= max < 0x8000_0000
    ensures SymbolsIn(RunDigits(z) + tail, bytes)
    ensures DecodeFrom(RunDigits(z) + tail, list, bytes, text, NoLoss(), max)
         == DecodeFrom(tail, list, bytes, text + Repeat(bytes[list[0]], z), NoLoss(), max)
  {
    var d := RunDigits(z);
    if z == 0 {
      assert d + tail == tail;
      assert text + Repeat(bytes[list[0]], 0) == text;
    } else {
      LeadingOf(d, tail);
      RunValueOfDigits(z);
      assert (d + tail)[..|d|] == d && (d + tail)[|d|..] == tail;
      assert ToInt32(z) == z;
    }
  }

  /** Decoding the symbols of a text gives the text back. */
  lemma {:induction false} DecodeEncodeBlock(text: Text, list: Text, bytes: Text, zeros: nat, before: Text, max: nat)
    requires Alphabet(list, bytes) && Reaches(list, bytes) && forall i :: 0 <= i < |text| ==> text[i] in bytes
    requires |before| + zeros + |text| <= max < 0x8000_0000
    ensures DecodeFrom(EncodeFrom(text, list, bytes, zeros), list, bytes, before, NoLoss(), max)
         == Done(before + Repeat(bytes[list[0]], zeros) + text, NoLoss())
    decreases |text|
  {
    hide DecodeFrom, LeadingDigits, RunValue, RunDigits, ToFront;
    var front := Repeat(bytes[list[0]], zeros);
    if text == [] {
      DecodeEnd(list, bytes, before + front, max);
      DecodeRun(zeros, [|bytes| + 1], list, bytes, before, max);
      assert before + front + text == before + front;
    } else {
      var k := Place(list, bytes, text[0]);
      if k == 0 {
        DecodeEncodeBlock(text[1..], list, bytes, zeros + 1, before, max);
        assert before + Repeat(bytes[list[0]], zeros + 1) + text[1..] == before + front + text;
      } else {
        EncodeLiteral(text, list, bytes, zeros, before, max, k);
      }
    }
  }

  lemma {:induction false} DecodeEnd(list: Text, bytes: Text, text: Text, max: nat)
    requires Alphabet(list, bytes)
    ensures SymbolsIn([|bytes| + 1], bytes)
    ensures DecodeFrom([|bytes| + 1], list, bytes, text, NoLoss(), max) == Done(text, NoLoss())
  {
  }

  lemma {:induction false} EncodeLiteral(text: Text, list: Text, bytes: Text, zeros: nat, before: Text, max: nat, k: nat)
    requires Alphabet(list, bytes) && Reaches(list, bytes) && forall i :: 0 <= i < |text| ==> text[i] in bytes
    requires |before| + zeros + |text| <= max < 0x8000_0000
    requires text != [] && k == Place(list, bytes, text[0]) && k > 0
    ensures DecodeFrom(EncodeFrom(text, list, bytes, zeros), list, bytes, before, NoLoss(), max)
         == Done(before + Repeat(bytes[list[0]], zeros) + text, NoLoss())
    decreases |text|, 0
  {
    hide DecodeFrom, RunDigits, ToFront, LeadingDigits, RunValue;
    ReachesKept(list, bytes, k);
    var list' := ToFront(list, k);
    var after := EncodeFrom(text[1..], list', bytes, 0);
    var tail := [k + 1] + after;
    var sofar := before + Repeat(bytes[list[0]], zeros);
    assert RunDigits(zeros) + [k + 1] + after == RunDigits(zeros) + tail;
    DecodeRun(zeros, tail, list, bytes, before, max);
    DecodeLiteral(k, after, list, bytes, sofar, max);
    DecodeEncodeBlock(text[1..], list', bytes, 0, sofar + [text[0]], max);
    assert sofar + [text[0]] + Repeat(bytes[list'[0]], 0) + text[1..] == sofar + text;
  }

  lemma {:induction false} DecodeLiteral(k: nat, after: seq<nat>, list: Text, bytes: Text, text: Text, max: nat)
    requires Alphabet(list, bytes) && 0 < k < |bytes| && SymbolsIn(after, bytes) && |text| < max
    ensures SymbolsIn([k + 1] + after, bytes) && Alphabet(ToFront(list, k), bytes)
    ensures DecodeFrom([k + 1] + after, list, bytes, text, NoLoss(), max)
         == DecodeFrom(after, ToFront(list, k), bytes, text + [bytes[list[k]]], NoLoss(), max)
  {
    AlphabetKept(list, bytes, k);
    assert ([k + 1] + after)[1..] == after;
  }

  // -------------------------------------------------------------- bytes in use

  /** The bytes below n that are in use, in order. */
  function UsedBelow(inUse: seq<bool>, n: nat): Text
    requires |inUse| == 256 && n <= 256
  {
    if n == 0 then []
    else if inUse[n - 1] then UsedBelow(inUse, n - 1) + [n - 1]
    else UsedBelow(inUse, n - 1)
  }

  /** The map lists exactly the bytes in use, each once, in increasing order. */
  lemma {:induction false} UsedExactly(inUse: seq<bool>, n: nat)
    requires |inUse| == 256 && n <= 256
    ensures |UsedBelow(inUse, n)| <= n
    ensures forall c: Byte :: c in UsedBelow(inUse, n) <==> c < n && inUse[c]
    ensures forall i, j :: 0 <= i < j < |UsedBelow(inUse, n)| ==> UsedBelow(inUse, n)[i] < UsedBelow(inUse, n)[j]
  {
    if n != 0 {
      UsedExactly(inUse, n - 1);
      var u := UsedBelow(inUse, n - 1);
      assert forall i :: 0 <= i < |u| ==> u[i] in u;
    }
  }

  // ------------------------------------------------------------ the block reader

  /** What the counts come to: those of the text, less what negative runs took. */
  ghost predicate Tally(h: seq<int>, text: Text, lost: Losses) {
    |h| == 256 && forall c: Byte :: h[c] == ToInt32(Count(text, c) + lost[c])
  }

  /** They are the histogram exactly when, for each byte, what was lost vanishes in
      32 bits. */
  lemma {:induction false} HistogramIff(h: seq<int>, text: Text, lost: Losses)
    requires Tally(h, text, lost) && |text| < 0x8000_0000
    ensures Histogram(h, text) <==> forall c: Byte :: lost[c] % 0x1_0000_0000 == 0
  {
    forall c: Byte ensures h[c] == Count(text, c) <==> lost[c] % 0x1_0000_0000 == 0 {
      CountBelow(text, c);
      assert h[c] == ToInt32(Count(text, c) + lost[c]);
      SameIff(Count(text, c), lost[c]);
    }
  }

  lemma {:induction false} CountBelow(text: Text, c: int)
    ensures Count(text, c) <= |text|
  {
    if text != [] { CountBelow(text[..|text| - 1], c); }
  }

  lemma {:induction false} SameIff(n: nat, lost: int)
    requires n < 0x8000_0000
    ensures ToInt32(n + lost) == n <==> lost % 0x1_0000_0000 == 0
  {
    if lost % 0x1_0000_0000 == 0 {
      Int32Period(n + lost, n, lost / 0x1_0000_0000);
    }
    if ToInt32(n + lost) == n {
      var k := Int32Quotient(n + lost);
      assert lost == 0x1_0000_0000 * -k;
    }
  }

  /** The histogram of a text grown by n copies of c. */
  lemma {:induction false} CountRepeat(text: Text, c: Byte, n: nat, d: int)
    ensures Count(text + Repeat(c, n), d) == Count(text, d) + (if c == d then n else 0)
  {
    if n == 0 {
      assert text + Repeat(c, 0) == text;
    } else {
      CountRepeat(text, c, n - 1, d);
      assert (text + Repeat(c, n))[..|text| + n - 1] == text + Repeat(c, n - 1);
    }
  }

  /** A run of n of byte c counted: what it adds to the text, or takes away. */
  lemma {:induction false} TallyRun(h: seq<int>, text: Text, lost: Losses, c: Byte, n: int)
    requires Tally(h, text, lost)
    ensures Tally(h[c := ToInt32(h[c] + n)], text + Repeat(c, if n > 0 then n else 0), Lose(lost, c, n))
  {
    var h', text', lost' := h[c := ToInt32(h[c] + n)], text + Repeat(c, if n > 0 then n else 0), Lose(lost, c, n);
    forall d: Byte ensures h'[d] == ToInt32(Count(text', d) + lost'[d]) {
      CountRepeat(text, c, if n > 0 then n else 0, d);
      assert h[d] == ToInt32(Count(text, d) + lost[d]);
      if d == c { Int32Add(Count(text, d) + lost[d], n); }
    }
  }

  lemma {:induction false} Int32Add(x: int, n: int)
    ensures ToInt32(ToInt32(x) + n) == ToInt32(x + n)
  {
    var k := Int32Quotient(x);
    Int32Period(ToInt32(x) + n, x + n, k);
  }

  // One step of DecodeFrom at position pos of the symbols.

  lemma {:induction false} LeadingStep(syms: seq<nat>, pos: nat, k: nat)
    requires pos + k < |syms| && syms[pos + k] <= RUNB
    requires LeadingDigits(syms[pos..]) == k + LeadingDigits(syms[pos + k..])
    ensures LeadingDigits(syms[pos..]) == k + 1 + LeadingDigits(syms[pos + k + 1..])
  {
    assert syms[pos + k..][1..] == syms[pos + k + 1..];
  }

  lemma {:induction false} LeadingStop(syms: seq<nat>, pos: nat, k: nat)
    requires pos + k <= |syms| && (pos + k == |syms| || syms[pos + k] > RUNB)
    requires LeadingDigits(syms[pos..]) == k + LeadingDigits(syms[pos + k..])
    ensures LeadingDigits(syms[pos..]) == k
  {
  }

  lemma {:induction false} StepRun(syms: seq<nat>, pos: nat, list: Text, bytes: Text, text: Text, lost: Losses, max: nat)
    requires Alphabet(list, bytes) && SymbolsIn(syms, bytes) && pos < |syms| && syms[pos] <= RUNB
    ensures var k := LeadingDigits(syms[pos..]);
      pos + k <= |syms| && SymbolsIn(syms[pos..], bytes) && SymbolsIn(syms[pos + k..], bytes) &&
      DecodeFrom(syms[pos..], list, bytes, text, lost, max)
      == if pos + k == |syms| then Unfinished
         else DecodeRest(syms[pos + k..], list, bytes, text, lost, ToInt32(RunValue(syms[pos..pos + k])), max)
  {
    hide RunValue, ToInt32, DecodeRest;
    var k := LeadingDigits(syms[pos..]);
    assert syms[pos..][..k] == syms[pos..pos + k] && syms[pos..][k..] == syms[pos + k..];
  }

  lemma {:induction false} StepLiteral(syms: seq<nat>, pos: nat, list: Text, bytes: Text, text: Text, lost: Losses, max: nat)
    requires Alphabet(list, bytes) && SymbolsIn(syms, bytes) && pos < |syms| && RUNB < syms[pos] <= |bytes|
    requires |text| < max
    ensures SymbolsIn(syms[pos..], bytes) && SymbolsIn(syms[pos + 1..], bytes)
    ensures var n := syms[pos] - 1;
      Alphabet(ToFront(list, n), bytes) && list[n] < |bytes| &&
      DecodeFrom(syms[pos..], list, bytes, text, lost, max)
      == DecodeFrom(syms[pos + 1..], ToFront(list, n), bytes, text + [bytes[list[n]]], lost, max)
  {
    hide ToFront;
    AlphabetKept(list, bytes, syms[pos] - 1);
    assert syms[pos..][1..] == syms[pos + 1..];
  }

  lemma {:induction false} StepEnd(syms: seq<nat>, pos: nat, list: Text, bytes: Text, text: Text, lost: Losses, max: nat)
    requires Alphabet(list, bytes) && SymbolsIn(syms, bytes) && pos <= |syms|
    ensures SymbolsIn(syms[pos..], bytes)
    ensures pos == |syms| ==> DecodeFrom(syms[pos..], list, bytes, text, lost, max) == Unfinished
    ensures pos < |syms| && syms[pos] == |bytes| + 1 ==>
      DecodeFrom(syms[pos..], list, bytes, text, lost, max) == Done(text, lost)
    ensures pos < |syms| && RUNB < syms[pos] <= |bytes| && |text| >= max ==>
      DecodeFrom(syms[pos..], list, bytes, text, lost, max) == TooLong
    ensures |bytes| > 0 && list[0] < |bytes|
  {
  }

  lemma {:induction false} StepRest(syms: seq<nat>, list: Text, bytes: Text, text: Text, lost: Losses, es: int, max: nat)
    requires Alphabet(list, bytes) && SymbolsIn(syms, bytes)
    ensures DecodeRest(syms, list, bytes, text, lost, es, max) ==
      if es > 0 && |text| + es > max then TooLong
      else DecodeFrom(syms, list, bytes, text + Repeat(bytes[list[0]], if es > 0 then es else 0),
                      Lose(lost, bytes[list[0]], es), max)
  {
    assert text + Repeat(bytes[list[0]], 0) == text;
  }

  lemma {:induction false} TallyZero(h: seq<int>)
    requires |h| == 256 && forall c :: 0 <= c < 256 ==> h[c] == 0
    ensures Tally(h, [], NoLoss())
  {
  }

  datatype Status = Ok | DataError | NeedMore

  /** What the status says of the outcome specified. */
  ghost predicate Reports(r: Status, o: Outcome, text: Text, h: seq<int>) {
    match r
    case Ok => o.Done? && o.text == text && Tally(h, text, o.lost)
    case DataError => o == TooLong
    case NeedMore => o == Unfinished
  }

  /** The part of the decoder that receives one block: it fills the arrays of
      the output side as the symbols come in. */
  class BlockReader {
    const d: DState
    const mtf: Mtf
    const seqToUnseq: array<Byte>
    var nInUse: nat
    var nblock: nat
    ghost var text: Text

    constructor (d: DState)
      ensures this.d == d && fresh(mtf) && fresh(mtf.mtfa) && fresh(mtf.mtfbase) && fresh(seqToUnseq)
      ensures mtf.Valid() && seqToUnseq.Length == 256
      ensures forall k :: 0 <= k < 256 ==> mtf.List()[k] == k
    {
      this.d := d;
      mtf := new Mtf();
      seqToUnseq := new Byte[256](_ => 0);
      nInUse, nblock, text := 0, 0, [];
    }

    /** makeMaps_d */
    method MakeMaps(inUse: seq<bool>)
      requires |inUse| == 256 && seqToUnseq.Length == 256
      modifies seqToUnseq, `nInUse
      ensures nInUse <= 256 && seqToUnseq[..nInUse] == UsedBelow(inUse, 256)
    {
      nInUse := 0;
      for i := 0 to 256
        invariant nInUse <= i && seqToUnseq[..nInUse] == UsedBelow(inUse, i)
      {
        if inUse[i] {
          ghost var u := seqToUnseq[..nInUse];
          seqToUnseq[nInUse] := i;
          assert seqToUnseq[..nInUse] == u;
          nInUse := nInUse + 1;
          assert seqToUnseq[..nInUse] == u + [i];
        }
      }
    }

    ghost function Used(): Text
      reads seqToUnseq, `nInUse
      requires nInUse <= seqToUnseq.Length
    {
      seqToUnseq[..nInUse]
    }

    /** The arrays are the decoder's own. */
    ghost predicate Separate() {
      && mtf.mtfa != seqToUnseq && d.unzftab != mtf.mtfbase
      && d.tt != d.ll.ll16 && d.tt != d.ll.ll4 && d.ll.ll16 != d.ll.ll4
    }

    /** text is what has been stored so far. */
    ghost predicate Stored()
      reads `nblock, `text, d.tt, d.ll.ll16, d.ll.ll4
    {
      && nblock == |text| && d.ll.Valid()
      && if d.small then |text| <= d.ll.ll16.Length && forall j :: 0 <= j < |text| ==> d.ll.ll16[j] == text[j]
         else |text| <= d.tt.Length && forall j :: 0 <= j < |text| ==> d.tt[j] == text[j]
    }

    ghost predicate Room(max: nat)
      reads {}
    {
      if d.small then max <= d.ll.ll16.Length else max <= d.tt.Length
    }

    /** The loop that stores a run, in whichever array is in use. */
    method FillRun(uc: Byte, es0: int, max: nat) returns (ok: bool)
      requires Stored() && Room(max) && Separate()
      modifies d.tt, d.ll.ll16, `nblock, `text
      ensures Stored()
      ensures ok <==> es0 <= 0 || old(|text|) + es0 <= max
      ensures ok ==> text == old(text) + Repeat(uc, if es0 > 0 then es0 else 0)
    {
      var es := es0;
      assert text == text + Repeat(uc, 0);
      while es > 0
        invariant Stored() && (es0 <= 0 ==> es == es0) && (es0 > 0 ==> 0 <= es <= es0)
        invariant text == old(text) + Repeat(uc, es0 - es)
        invariant es0 != es ==> nblock <= max
        decreases es
      {
        if nblock >= max { return false; }
        StoreByte(uc, max);
        RepeatNext(uc, es0 - es);
        es := es - 1;
      }
      ok := true;
    }

    method StoreByte(uc: Byte, max: nat)
      requires Stored() && Room(max) && Separate() && nblock < max
      modifies d.tt, d.ll.ll16, `nblock, `text
      ensures Stored() && text == old(text) + [uc]
    {
      if d.small { d.ll.ll16[nblock] := uc; } else { d.tt[nblock] := uc; }
      nblock := nblock + 1;
      text := text + [uc];
    }

    /** The do-while loop that adds up run digits, in 32-bit arithmetic. */
    method ReadDigits(syms: seq<nat>, pos: nat) returns (es: int, k: nat)
      requires pos < |syms| && syms[pos] <= RUNB
      ensures k == LeadingDigits(syms[pos..]) && 0 < k <= |syms| - pos
      ensures es == ToInt32(RunValue(syms[pos..pos + k]))
    {
      hide *;
      es := -1;
      var n := 1;
      k := 0;
      DigitsStart(syms, pos);
      while k == 0 || (pos + k < |syms| && syms[pos + k] <= RUNB)
        invariant 0 <= k <= |syms| - pos
        invariant es == ToInt32(RunValue(syms[pos..pos + k]) - 1) && n == ToInt32(Pow2(k))
        invariant LeadingDigits(syms[pos..]) == k + LeadingDigits(syms[pos + k..])
        decreases |syms| - pos - k
      {
        var d := syms[pos + k];
        DigitsStep(syms, pos, k);
        if d == RUNA { es := ToInt32(es + (0 + 1) * n); } else { es := ToInt32(es + (1 + 1) * n); }
        n := ToInt32(n * 2);
        LeadingStep(syms, pos, k);
        k := k + 1;
      }
      LeadingStop(syms, pos, k);
      Int32Accumulate(RunValue(syms[pos..pos + k]) - 1, 0, 1);
      es := ToInt32(es + 1);
    }

    lemma {:induction false} DigitsStart(syms: seq<nat>, pos: nat)
      requires pos < |syms|
      ensures -1 == ToInt32(RunValue(syms[pos..pos + 0]) - 1) && 1 == ToInt32(Pow2(0))
      ensures RUNA == 0 && RUNB == 1
    {
      assert syms[pos..pos] == [];
    }

    lemma {:induction false} DigitsStep(syms: seq<nat>, pos: nat, k: nat)
      requires pos + k < |syms| && syms[pos + k] <= RUNB
      ensures var v, n := RunValue(syms[pos..pos + k]) - 1, Pow2(k);
        && ToInt32(RunValue(syms[pos..pos + k + 1]) - 1) == ToInt32(ToInt32(v) + (syms[pos + k] + 1) * ToInt32(n))
        && ToInt32(Pow2(k + 1)) == ToInt32(ToInt32(n) * 2)
    {
      hide ToInt32, RunValue;
      var d, v := syms[pos + k], RunValue(syms[pos..pos + k]) - 1;
      assert syms[pos..pos + k + 1] == syms[pos..pos + k] + [d];
      RunValueAppend(syms[pos..pos + k], d);
      assert v + (d + 1) * Pow2(k) == RunValue(syms[pos..pos + k + 1]) - 1;
      Int32Accumulate(v, Pow2(k), d + 1);
    }

    ghost predicate Ready(max: nat)
      reads `nInUse, `nblock, `text, seqToUnseq, mtf.mtfa, mtf.mtfbase, d.tt, d.ll.ll16, d.ll.ll4
    {
      && Separate() && Room(max) && Stored() && mtf.Valid() && d.unzftab.Length == 256
      && nInUse <= seqToUnseq.Length && Alphabet(mtf.List(), Used())
    }

    /** One run: its length counted, and its bytes stored. */
    method TakeRun(es: int, max: nat, ghost lost: Losses) returns (ok: bool)
      requires Ready(max) && Tally(d.unzftab[..], text, lost)
      modifies d.tt, d.ll.ll16, d.unzftab, `nblock, `text
      ensures Ready(max)
      ensures ok <==> es <= 0 || old(|text|) + es <= max
      ensures ok ==> text == old(text) + Repeat(Used()[mtf.List()[0]], if es > 0 then es else 0)
      ensures ok ==> Tally(d.unzftab[..], text, Lose(lost, Used()[old(mtf.List())[0]], es))
    {
      hide Tally, ToInt32, Lose;
      var front := mtf.Front();
      var uc := seqToUnseq[front];
      ghost var h := d.unzftab[..];
      TallyRun(h, text, lost, uc, es);
      d.unzftab[uc] := ToInt32(d.unzftab[uc] + es);
      assert d.unzftab[..] == h[uc := ToInt32(h[uc] + es)];
      ok := FillRun(uc, es, max);
    }

    /** One literal: moved to the front, counted and stored. */
    method TakeLiteral(nextSym: nat, max: nat, ghost lost: Losses)
      requires Ready(max) && Tally(d.unzftab[..], text, lost) && nblock < max && RUNB < nextSym <= nInUse
      modifies mtf.mtfa, mtf.mtfbase, d.tt, d.ll.ll16, d.unzftab, `nblock, `text
      ensures Ready(max) && mtf.List() == ToFront(old(mtf.List()), nextSym - 1) && Used() == old(Used())
      ensures text == old(text) + [Used()[old(mtf.List())[nextSym - 1]]]
      ensures Tally(d.unzftab[..], text, lost)
    {
      hide *;
      IsReady(max);
      ghost var list, bytes := mtf.List(), Used();
      AlphabetKept(list, bytes, nextSym - 1);
      AlphabetAt(list, bytes, nextSym - 1);
      var uc := mtf.Decode(nextSym - 1);
      UsedAt(uc);
      CountAndStore(seqToUnseq[uc], max, lost);
      NowReady(max);
    }

    lemma {:induction false} AlphabetAt(list: Text, bytes: Text, n: nat)
      requires Alphabet(list, bytes) && n < |bytes|
      ensures n < |bytes| <= 256 && list[n] < |bytes|
    {
    }

    lemma {:induction false} UsedAt(uc: Byte)
      requires nInUse <= seqToUnseq.Length && uc < |Used()|
      ensures |Used()| == nInUse && Used()[uc] == seqToUnseq[uc]
    {
    }

    method CountAndStore(c: Byte, max: nat, ghost lost: Losses)
      requires Tally(d.unzftab[..], text, lost) && Stored() && Room(max) && Separate() && nblock < max && d.unzftab.Length == 256
      modifies d.tt, d.ll.ll16, d.unzftab, `nblock, `text
      ensures Stored() && text == old(text) + [c]
      ensures Tally(d.unzftab[..], text, lost)
    {
      hide Tally, ToInt32, Lose;
      ghost var h := d.unzftab[..];
      TallyRun(h, text, lost, c, 1);
      LoseNothing(lost, c, 1);
      d.unzftab[c] := ToInt32(d.unzftab[c] + 1);
      assert d.unzftab[..] == h[c := ToInt32(h[c] + 1)];
      assert Repeat(c, 1) == [c];
      StoreByte(c, max);
    }

    lemma {:induction false} NowReady(max: nat)
      requires Separate() && Room(max) && Stored() && mtf.Valid() && d.unzftab.Length == 256
      requires nInUse <= seqToUnseq.Length && Alphabet(mtf.List(), Used())
      ensures Ready(max)
    {
    }

    lemma {:induction false} IsReady(max: nat)
      requires Ready(max)
      ensures Separate() && Room(max) && Stored() && mtf.Valid() && d.unzftab.Length == 256
      ensures nInUse <= seqToUnseq.Length && mtf.Shaped() && Alphabet(mtf.List(), Used())
      ensures |Used()| == nInUse && nblock == |text|
      ensures mtf.mtfa != seqToUnseq && d.unzftab != mtf.mtfbase
      ensures d.tt != d.ll.ll16 && d.tt != d.ll.ll4 && d.ll.ll16 != d.ll.ll4
    {
    }

    lemma {:induction false} IsSeparate()
      requires Separate() && mtf.Valid()
      ensures mtf.mtfa != seqToUnseq && d.unzftab != mtf.mtfbase && mtf.Shaped()
      ensures d.tt != d.ll.ll16 && d.tt != d.ll.ll4 && d.ll.ll16 != d.ll.ll4
    {
    }

    lemma {:induction false} EmptyStored()
      requires d.ll.Valid() && nblock == 0 && text == []
      ensures Stored()
    {
    }

    method ClearCounts()
      requires d.unzftab.Length == 256
      modifies d.unzftab
      ensures Tally(d.unzftab[..], [], NoLoss())
    {
      for i := 0 to 256
        invariant forall k :: 0 <= k < i ==> d.unzftab[k] == 0
      {
        d.unzftab[i] := 0;
      }
      TallyZero(d.unzftab[..]);
    }

    /** The symbol loop, from "now the MTF values" to the end of block: it
        decodes what the symbols stand for, refuses exactly the blocks that
        outgrow max, and leaves the counts that the text and its negative runs make. */
    method ReadBlock(syms: seq<nat>, max: nat) returns (r: Status)
      requires Separate() && Room(max) && d.ll.Valid() && mtf.Valid() && d.unzftab.Length == 256
      requires mtf.Shaped() && nInUse <= seqToUnseq.Length && Alphabet(mtf.List(), Used()) && SymbolsIn(syms, Used())
      modifies mtf.mtfa, mtf.mtfbase, d.tt, d.ll.ll16, d.unzftab, `nblock, `text
      ensures Reports(r, DecodeFrom(syms, old(mtf.List()), Used(), [], NoLoss(), max), text, d.unzftab[..])
      ensures Stored() && nInUse == old(nInUse) && Used() == old(Used())
    {
      hide *;
      IsSeparate();
      ghost var bytes, o := Used(), DecodeFrom(syms, mtf.List(), Used(), [], NoLoss(), max);
      ghost var lost := NoLoss();
      nblock, text := 0, [];
      EmptyStored();
      ClearCounts();
      NowReady(max);
      var pos := 0;
      assert syms[0..] == syms;
      while true
        invariant Ready(max) && nInUse <= seqToUnseq.Length && Used() == bytes && 0 <= pos <= |syms|
        invariant mtf.Shaped() && Alphabet(mtf.List(), bytes) && SymbolsIn(syms, bytes) && SymbolsIn(syms[pos..], bytes)
        invariant DecodeFrom(syms[pos..], mtf.List(), bytes, text, lost, max) == o
        invariant Tally(d.unzftab[..], text, lost)
        decreases |syms| - pos
      {
        IsReady(max);
        SymbolAt(syms, bytes, pos);
        StepEnd(syms, pos, mtf.List(), bytes, text, lost, max);
        if pos == |syms| { r := NeedMore; break; }
        if syms[pos] == nInUse + 1 { r := Ok; break; }
        if syms[pos] == RUNA || syms[pos] == RUNB {
          StepRun(syms, pos, mtf.List(), bytes, text, lost, max);
          var es, k := ReadDigits(syms, pos);
          pos := pos + k;
          if pos == |syms| { r := NeedMore; break; }
          StepRest(syms[pos..], mtf.List(), bytes, text, lost, es, max);
          ghost var c := bytes[mtf.List()[0]];
          var ok := TakeRun(es, max, lost);
          IsReady(max);
          if !ok { r := DataError; break; }
          lost := Lose(lost, c, es);
        } else {
          if nblock >= max { r := DataError; break; }
          StepLiteral(syms, pos, mtf.List(), bytes, text, lost, max);
          TakeLiteral(syms[pos], max, lost);
          pos := pos + 1;
        }
        IsReady(max);
      }
      ReportsIt(r, o, lost, max);
    }

    lemma {:induction false} SymbolAt(syms: seq<nat>, bytes: Text, pos: nat)
      requires SymbolsIn(syms, bytes) && pos <= |syms|
      ensures pos < |syms| ==> syms[pos] <= |bytes| + 1
      ensures RUNA == 0 && RUNB == 1
    {
    }

    lemma {:induction false} ReportsIt(r: Status, o: Outcome, lost: Losses, max: nat)
      requires r == NeedMore ==> o == Unfinished
      requires r == Ok ==> o == Done(text, lost)
      requires r == DataError ==> o == TooLong
      requires Tally(d.unzftab[..], text, lost) || r != Ok
      ensures Reports(r, o, text, d.unzftab[..])
    {
    }
  }
}
