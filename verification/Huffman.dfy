/** The prefix codes of a block: canonical codes given by their lengths, and
    the limit/base/perm tables that decode them bit by bit. */
module Huffman {
  import opened Bits
  import opened BitString
  import opened Permutations
  import opened BwtSpec

  const MAX_ALPHA: nat := 258

  // --------------------------------------------------------- canonical codes

  /** Code lengths as the stream may give them. */
  type Lengths = s: Text | 0 < |s| <= 258 && (forall i :: 0 <= i < |s| ==> 1 <= s[i] <= 20) witness [1]

  /** The first code of l bits. */
  function First(len: Text, l: nat): nat {
    if l == 0 then 0 else 2 * (First(len, l - 1) + Count(len, l - 1))
  }

  /** The code of symbol s, a number of len[s] bits. */
  function Code(len: Text, s: nat): nat
    requires s < |len|
  {
    First(len, len[s]) + Count(len[..s], len[s])
  }

  function Codeword(len: Text, s: nat): (b: seq<Bit>)
    requires s < |len|
    ensures |b| == len[s]
  {
    BitsOf(Code(len, s), len[s])
  }

  /** Kraft's sum in units of 2^-20. */
  function KraftSum(len: Text): nat
    requires forall i :: 0 <= i < |len| ==> len[i] <= 20
  {
    if len == [] then 0 else KraftSum(len[..|len| - 1]) + Pow2(20 - len[|len| - 1])
  }

  predicate Kraft(len: Lengths) {
    KraftSum(len) <= Pow2(20)
  }

  /** Shorter codes use up First + Count of the l-bit values; the rest follow. */
  lemma {:induction false} FirstAbove(len: Text, k: nat, l: nat)
    requires k < l
    ensures First(len, l) >= (First(len, k) + Count(len, k)) * Pow2(l - k)
    decreases l - k
  {
    hide Count;
    var x := First(len, k) + Count(len, k);
    if l == k + 1 {
      assert Pow2(1) == 2;
    } else {
      FirstAbove(len, k, l - 1);
      assert Pow2(l - k) == 2 * Pow2(l - 1 - k);
      Doubled(x, Pow2(l - 1 - k));
    }
  }

  lemma {:induction false} Doubled(x: nat, p: nat)
    ensures x * (2 * p) == 2 * (x * p)
  {
  }

  /** The Kraft sum of the codes of at most l bits. */
  function KraftBelow(len: Text, l: nat): nat
    requires l <= 20
  {
    if l == 0 then Count(len, 0) * Pow2(20) else KraftBelow(len, l - 1) + Count(len, l) * Pow2(20 - l)
  }

  lemma {:induction false} KraftSplit(len: Text, l: nat)
    requires l <= 20 && forall i :: 0 <= i < |len| ==> 1 <= len[i] <= 20
    ensures KraftBelow(len, l) <= KraftSum(len)
  {
    if len == [] {
      KraftNone(l);
    } else {
      var init := len[..|len| - 1];
      KraftSplit(init, l);
      KraftOne(len, l);
    }
  }

  lemma {:induction false} KraftNone(l: nat)
    requires l <= 20
    ensures KraftBelow([], l) == 0
  {
    if l != 0 { KraftNone(l - 1); }
  }

  lemma {:induction false} KraftOne(len: Text, l: nat)
    requires l <= 20 && len != [] && len[|len| - 1] <= 20
    ensures KraftBelow(len, l) == KraftBelow(len[..|len| - 1], l)
                                  + (if len[|len| - 1] <= l then Pow2(20 - len[|len| - 1]) else 0)
  {
    var c, p := Count(len[..|len| - 1], l), Pow2(20 - l);
    assert (c + 1) * p == c * p + p;
    if l != 0 { KraftOne(len, l - 1); }
  }

  lemma {:induction false} CountZero(len: Text)
    requires forall i :: 0 <= i < |len| ==> 1 <= len[i]
    ensures Count(len, 0) == 0 && Less(len, 0) == 0 && Less(len, 1) == 0
  {
    if len != [] { CountZero(len[..|len| - 1]); }
  }

  lemma {:induction false} KraftFirst(len: Lengths, l: nat)
    requires l <= 20
    ensures (First(len, l) + Count(len, l)) * Pow2(20 - l) == KraftBelow(len, l)
  {
    if l == 0 {
      CountZero(len);
    } else {
      KraftFirst(len, l - 1);
      Spread(First(len, l - 1) + Count(len, l - 1), Count(len, l), Pow2(20 - l));
    }
  }

  lemma {:induction false} Spread(x: nat, c: nat, p: nat)
    ensures (2 * x + c) * p == x * (2 * p) + c * p
  {
    assert (2 * x + c) * p == (2 * x) * p + c * p;
  }

  /** Under Kraft's inequality every code fits its length. */
  lemma {:induction false} CodesFit(len: Lengths, l: nat)
    requires Kraft(len) && l <= 20
    ensures First(len, l) + Count(len, l) <= Pow2(l)
  {
    hide First, Count, Pow2;
    KraftFirst(len, l);
    KraftSplit(len, l);
    Pow2Add(l, 20 - l);
    var x, p := First(len, l) + Count(len, l), Pow2(20 - l);
    MulLess(Pow2(l), x, p);
  }

  lemma {:induction false} CodeRange(len: Text, s: nat)
    requires s < |len|
    ensures First(len, len[s]) <= Code(len, s) < First(len, len[s]) + Count(len, len[s])
  {
    CountMono(len, len[s], s, |len|);
    assert len[..|len|] == len;
  }

  // ------------------------------------------------------------- the tables

  function MinLen(len: Text): (m: nat)
    ensures len != [] ==> m in len
    ensures forall i :: 0 <= i < |len| ==> m <= len[i]
  {
    if len == [] then 32 else
      var m := MinLen(len[..|len| - 1]);
      assert len == len[..|len| - 1] + [len[|len| - 1]];
      if len[|len| - 1] < m || |len| == 1 then len[|len| - 1] else m
  }

  function MaxLen(len: Text): (m: nat)
    ensures len != [] ==> m in len
    ensures forall i :: 0 <= i < |len| ==> len[i] <= m
  {
    if len == [] then 0 else
      var m := MaxLen(len[..|len| - 1]);
      assert len == len[..|len| - 1] + [len[|len| - 1]];
      if len[|len| - 1] > m || |len| == 1 then len[|len| - 1] else m
  }

  /** What BZ2_hbCreateDecodeTables leaves for one code. */
  datatype Tables = Tables(minLen: nat, limit: seq<int>, base: seq<int>, perm: seq<int>) {
    ghost predicate For(len: Lengths) {
      && minLen == MinLen(len) && |limit| == |base| == |perm| == MAX_ALPHA
      && (forall l {:trigger limit[l]} :: minLen <= l <= MaxLen(len) ==> limit[l] == First(len, l) + Count(len, l) - 1)
      && (forall l :: MaxLen(len) < l <= 22 ==> limit[l] == 0)
      && (forall l :: minLen <= l <= MaxLen(len) ==> base[l] == First(len, l) - Less(len, l))
      && (forall s :: 0 <= s < |len| ==> perm[LF(len, s)] == s)
    }
  }

  // ------------------------------------------------------- decoding bit by bit

  datatype Read = Found(symbol: int, used: nat) | More | Bad

  /** GET_MTF_VAL from the point where zn bits of a code have been read. */
  function Scan(t: Tables, bits: seq<Bit>, zn: nat): Read
    requires |t.limit| == |t.base| == |t.perm| == MAX_ALPHA
    decreases 21 - zn
  {
    if |bits| < zn then More
    else if zn > 20 then Bad
    else
      var zvec := ValueOf(bits[..zn]);
      if zvec <= t.limit[zn] then
        var x := zvec - t.base[zn];
        if x < 0 || x >= MAX_ALPHA then Bad else Found(t.perm[x], zn)
      else Scan(t, bits, zn + 1)
  }

  /** The code value read so far exceeds every code of the lengths passed. */
  ghost predicate Passed(t: Tables, zn: nat, zvec: int)
    requires |t.limit| == MAX_ALPHA
  {
    t.minLen <= zn <= 20 && zvec >= 0 && (zn > t.minLen ==> zvec >= 2 * (t.limit[zn - 1] + 1))
  }

  lemma {:induction false} FirstLow(len: Lengths, l: nat)
    requires l <= MinLen(len)
    ensures First(len, l) == 0 && Less(len, l) == 0
    ensures l < MinLen(len) ==> Count(len, l) == 0
  {
    NoneBelow(len, l, MinLen(len));
    if l != 0 {
      FirstLow(len, l - 1);
    }
  }

  lemma {:induction false} NoneBelow(len: Text, l: nat, m: nat)
    requires l <= m && forall i :: 0 <= i < |len| ==> m <= len[i]
    ensures Less(len, l) == 0 && (l < m ==> Count(len, l) == 0)
  {
    if len != [] { NoneBelow(len[..|len| - 1], l, m); }
  }

  lemma {:induction false} CountIn(len: Text, c: int, i: nat)
    requires i < |len| && len[i] == c
    ensures Count(len, c) > 0
  {
    CountMono(len, c, i, |len|);
    assert len[..|len|] == len;
  }

  /** Whatever the lengths, over-subscribed or not: a code that is accepted
      after the shorter lengths were passed is the code of the symbol found,
      and that symbol is in the alphabet. */
  lemma {:induction false} AcceptedIsCode(len: Lengths, t: Tables, zn: nat, zvec: int) returns (s: nat)
    requires t.For(len) && Passed(t, zn, zvec) && zvec <= t.limit[zn]
    ensures s < |len| && len[s] == zn && Code(len, s) == zvec
    ensures 0 <= zvec - t.base[zn] < |len| && t.perm[zvec - t.base[zn]] == s
  {
    NotPastMax(len, t, zn, zvec);
    FirstFloor(len, t, zn, zvec);
    s := Nth(len, zn, zvec - First(len, zn));
    assert LF(len, s) == zvec - t.base[zn];
  }

  lemma {:induction false} FirstFloor(len: Lengths, t: Tables, zn: nat, zvec: int)
    requires t.For(len) && Passed(t, zn, zvec) && zn <= MaxLen(len)
    ensures zvec >= First(len, zn)
  {
    if zn == t.minLen {
      FirstLow(len, zn);
    }
  }

  /** Past the longest code only a zero could be accepted, and a zero was
      accepted at the shortest. */
  lemma {:induction false} NotPastMax(len: Lengths, t: Tables, zn: nat, zvec: int)
    requires t.For(len) && Passed(t, zn, zvec) && zvec <= t.limit[zn]
    ensures zn <= MaxLen(len)
  {
    LimitsNonNegative(len, t);
  }

  lemma {:induction false} LimitsNonNegative(len: Lengths, t: Tables)
    requires t.For(len)
    ensures forall l :: MaxLen(len) <= l <= 22 ==> t.limit[l] >= 0
  {
    var m := MaxLen(len);
    var i :| 0 <= i < |len| && len[i] == m;
    CountIn(len, m, i);
  }

  /** The r-th symbol of length l. */
  lemma {:induction false} Nth(len: Text, l: int, r: nat) returns (s: nat)
    requires r < Count(len, l)
    ensures s < |len| && len[s] == l && Count(len[..s], l) == r
  {
    var n := |len| - 1;
    if len[n] == l && Count(len[..n], l) == r {
      s := n;
    } else {
      s := Nth(len[..n], l, r);
      assert len[..n][..s] == len[..s];
    }
  }

  /** Soundness for every set of lengths: what is found lies in the alphabet and
      the bits consumed are exactly its codeword. */
  lemma {:induction false} ScanSound(len: Lengths, t: Tables, bits: seq<Bit>, zn: nat)
    requires t.For(len) && zn <= |bits| && Passed(t, zn, ValueOf(bits[..zn]))
    ensures Scan(t, bits, zn).Found? ==>
      var f := Scan(t, bits, zn);
      0 <= f.symbol < |len| && f.used == len[f.symbol] as int <= |bits| && bits[..f.used] == Codeword(len, f.symbol)
    decreases 20 - zn
  {
    var zvec := ValueOf(bits[..zn]);
    if zvec <= t.limit[zn] {
      var s := AcceptedIsCode(len, t, zn, zvec);
      BitsOfValue(bits[..zn]);
    } else if zn < |bits| && zn < 20 {
      ValueMore(bits, zn);
      ScanSound(len, t, bits, zn + 1);
    }
  }

  /** One step of a scan: the limit test decides. */
  lemma {:induction false} ScanStep(t: Tables, bits: seq<Bit>, zn: nat, v: int)
    requires |t.limit| == |t.base| == |t.perm| == MAX_ALPHA && zn <= 20 && zn <= |bits| && v == ValueOf(bits[..zn])
    ensures v > t.limit[zn] ==> Scan(t, bits, zn) == Scan(t, bits, zn + 1)
    ensures v <= t.limit[zn] && 0 <= v - t.base[zn] < MAX_ALPHA ==> Scan(t, bits, zn) == Found(t.perm[v - t.base[zn]], zn)
  {
    hide ValueOf;
  }

  /** The first bits of a codeword exceed the limit of every shorter length. */
  lemma {:induction false} ShortRefused(len: Lengths, t: Tables, s: nat, zn: nat)
    requires t.For(len) && s < |len| && t.minLen <= zn < len[s]
    ensures Code(len, s) / Pow2(len[s] - zn) > t.limit[zn]
  {
    hide First, Count, Code, Pow2;
    CodeRange(len, s);
    FirstAbove(len, zn, len[s]);
    DivAtLeast(Code(len, s), First(len, zn) + Count(len, zn), Pow2(len[s] - zn));
  }

  /** At its own length a code is accepted and finds its symbol. */
  lemma {:induction false} OwnAccepted(len: Lengths, t: Tables, s: nat)
    requires t.For(len) && s < |len|
    ensures t.minLen <= len[s] <= MaxLen(len) && Code(len, s) <= t.limit[len[s]]
    ensures 0 <= Code(len, s) - t.base[len[s]] < |len| && t.perm[Code(len, s) - t.base[len[s]]] == s
  {
    hide First, Count;
    CodeRange(len, s);
    LFBucket(len, s);
    assert Code(len, s) - t.base[len[s]] == LF(len, s);
  }

  /** Completeness under Kraft: a codeword is decoded to its symbol, whatever
      follows it. */
  lemma {:induction false} ScanCodeword(len: Lengths, t: Tables, s: nat, rest: seq<Bit>, zn: nat)
    requires t.For(len) && Kraft(len) && s < |len| && t.minLen <= zn <= len[s]
    ensures Scan(t, Codeword(len, s) + rest, zn) == Found(s, len[s])
    decreases 20 - zn
  {
    hide *;
    var bits := Codeword(len, s) + rest;
    TablesShape(len, t);
    CodewordPrefix(len, s, rest, zn);
    ScanStep(t, bits, zn, Code(len, s) / Pow2(len[s] - zn));
    if zn == len[s] {
      OwnAccepted(len, t, s);
    } else {
      ShortRefused(len, t, s, zn);
      ScanCodeword(len, t, s, rest, zn + 1);
    }
  }

  lemma {:induction false} TablesShape(len: Lengths, t: Tables)
    requires t.For(len)
    ensures |t.limit| == |t.base| == |t.perm| == MAX_ALPHA && |len| <= MAX_ALPHA && Pow2(0) == 1
    ensures forall i :: 0 <= i < |len| ==> len[i] <= 20
  {
  }

  lemma {:induction false} CodewordPrefix(len: Lengths, s: nat, rest: seq<Bit>, zn: nat)
    requires Kraft(len) && s < |len| && zn <= len[s]
    ensures zn <= |Codeword(len, s) + rest|
    ensures ValueOf((Codeword(len, s) + rest)[..zn]) == Code(len, s) / Pow2(len[s] - zn)
  {
    hide First, Count, Kraft, Code, ValueOf, Pow2;
    CodesFit(len, len[s]);
    CodeRange(len, s);
    assert (Codeword(len, s) + rest)[..zn] == Codeword(len, s)[..zn];
    ValuePrefix(Code(len, s), len[s], zn);
  }

  lemma {:induction false} DivAtLeast(v: nat, x: nat, p: nat)
    requires p > 0 && v >= x * p
    ensures v / p >= x
  {
    MulLess(v / p, x, p);
  }

  // --------------------------------------------------------- symbol sequences

  /** The codewords of a sequence of symbols, one after another. */
  function EncodeSymbols(len: Text, syms: seq<nat>): seq<Bit>
    requires forall i :: 0 <= i < |syms| ==> syms[i] < |len|
  {
    if syms == [] then [] else Codeword(len, syms[0]) + EncodeSymbols(len, syms[1..])
  }

  /** Read n symbols; None if the bits run out or a code is refused. */
  function DecodeSymbols(t: Tables, bits: seq<Bit>, n: nat): (r: (seq<int>, seq<Bit>))
    requires |t.limit| == |t.base| == |t.perm| == MAX_ALPHA
    decreases n
  {
    if n == 0 then ([], bits)
    else
      match Scan(t, bits, t.minLen)
      case Found(s, used) =>
        if used <= |bits| then
          var (rest, left) := DecodeSymbols(t, bits[used..], n - 1);
          ([s] + rest, left)
        else ([], bits)
      case _ => ([], bits)
  }

  /** Decoding the codewords of any symbols gives them back and consumes
      exactly their bits. */
  lemma {:induction false} DecodeEncode(len: Lengths, t: Tables, syms: seq<nat>, rest: seq<Bit>)
    requires t.For(len) && Kraft(len) && forall i :: 0 <= i < |syms| ==> syms[i] < |len|
    ensures DecodeSymbols(t, EncodeSymbols(len, syms) + rest, |syms|) == (syms, rest)
    decreases |syms|
  {
    if syms == [] {
      assert EncodeSymbols(len, syms) + rest == rest;
    } else {
      var s := syms[0];
      var tail := EncodeSymbols(len, syms[1..]) + rest;
      var bits := EncodeSymbols(len, syms) + rest;
      assert bits == Codeword(len, s) + tail;
      ScanCodeword(len, t, s, tail, t.minLen);
      assert bits[len[s]..] == tail;
      DecodeEncode(len, t, syms[1..], rest);
      assert syms == [s] + syms[1..];
    }
  }

  // ---------------------------------------------------- building the tables

  lemma {:induction false} LFPrefix(len: Text, l: int, j: nat)
    requires j <= |len|
    ensures j < |len| ==> Count(len[..j + 1], l) == Count(len[..j], l) + (if len[j] == l then 1 else 0)
  {
    if j < |len| { assert len[..j + 1][..j] == len[..j]; }
  }

  /** The symbols of lengths below l, and those of length l below j, are in
      their places. */
  ghost predicate Placed(perm: seq<int>, len: Text, l: int, j: nat)
    requires |len| <= |perm|
  {
    forall s :: 0 <= s < |len| && (len[s] < l || (len[s] == l && s < j)) ==> perm[LF(len, s)] == s
  }

  /** The perm loop: symbols in order of length, then of number. */
  method FillPerm(perm: array<int>, length: Text, minLen: nat, maxLen: nat)
    requires |length| <= perm.Length
    requires minLen <= maxLen && forall i :: 0 <= i < |length| ==> minLen <= length[i] <= maxLen
    modifies perm
    ensures forall s :: 0 <= s < |length| ==> perm[LF(length, s)] == s
  {
    hide Less, Count;
    var pp := 0;
    NoneBelow(length, minLen, minLen);
    for i := minLen to maxLen + 1
      invariant pp == Less(length, i)
      invariant Placed(perm[..], length, i, 0)
    {
      CountStart(length, i);
      for j := 0 to |length|
        invariant pp == Less(length, i) + Count(length[..j], i)
        invariant Placed(perm[..], length, i, j)
      {
        LFPrefix(length, i, j);
        if length[j] == i {
          ghost var before := perm[..];
          PlaceOne(before, length, i, j);
          perm[pp] := j;
          assert perm[..] == before[LF(length, j) := j];
          pp := pp + 1;
        }
      }
      assert length[..|length|] == length;
      LessNext(length, i);
    }
  }

  lemma {:induction false} CountStart(len: Text, l: int)
    ensures Count(len[..0], l) == 0
  {
  }

  lemma {:induction false} PlaceOne(perm: seq<int>, len: Text, l: int, j: nat)
    requires |len| <= |perm| && Placed(perm, len, l, j) && j < |len| && len[j] == l
    ensures LF(len, j) == Less(len, l) + Count(len[..j], l)
    ensures Placed(perm[LF(len, j) := j], len, l, j + 1)
  {
    LFIsPerm(len);
    assert LFSeq(len)[j] == LF(len, j);
    forall s | 0 <= s < |len| && s != j ensures LF(len, s) != LF(len, j) {
      assert LFSeq(len)[s] == LF(len, s);
    }
  }

  /** The counting loops: base[i] becomes the number of codes shorter than i. */
  method CountShorter(base: array<int>, length: Lengths)
    requires base.Length == MAX_ALPHA
    modifies base
    ensures forall i :: 0 <= i <= 22 ==> base[i] == Less(length, i)
  {
    for i := 0 to 23
      invariant forall k :: 0 <= k < i ==> base[k] == 0
    {
      base[i] := 0;
    }
    assert length[..0] == [];
    for i := 0 to |length|
      invariant base[0] == 0 && forall k :: 0 < k <= 22 ==> base[k] == Count(length[..i], k - 1)
    {
      forall c: int ensures Count(length[..i + 1], c) == Count(length[..i], c) + (if length[i] == c then 1 else 0) {
        LFPrefix(length, c, i);
      }
      base[length[i] as int + 1] := base[length[i] as int + 1] + 1;
    }
    assert length[..|length|] == length;
    CountZero(length);
    for i := 1 to 23
      invariant forall k :: 0 <= k < i ==> base[k] == Less(length, k)
      invariant forall k :: i <= k <= 22 ==> base[k] == Count(length, k - 1)
    {
      LessNext(length, i - 1);
      base[i] := base[i] + base[i - 1];
    }
  }

  /** The limit loop: vec runs through the first codes. */
  method FillLimits(limit: array<int>, base: array<int>, ghost len: Lengths, minLen: nat, maxLen: nat)
    requires limit != base && limit.Length == base.Length == MAX_ALPHA
    requires minLen == MinLen(len) <= maxLen <= 20
    requires forall i :: 0 <= i <= 22 ==> base[i] == Less(len, i)
    modifies limit
    ensures forall l :: minLen <= l <= maxLen ==> limit[l] == First(len, l) + Count(len, l) - 1
    ensures forall l :: maxLen < l <= 22 ==> limit[l] == 0
  {
    hide Less, Count, MinLen;
    for i := 0 to 23
      invariant forall k :: 0 <= k < i ==> limit[k] == 0
    {
      limit[i] := 0;
    }
    FirstLow(len, minLen);
    var vec := 0;
    for i := minLen to maxLen + 1
      invariant vec == First(len, i)
      invariant forall k :: minLen <= k < i ==> limit[k] == First(len, k) + Count(len, k) - 1
      invariant forall k :: maxLen < k <= 22 ==> limit[k] == 0
    {
      LessNext(len, i);
      assert base[i + 1] == Less(len, i + 1);
      vec := vec + (base[i + 1] - base[i]);
      limit[i] := vec - 1;
      vec := 2 * vec;
    }
  }

  /** The last loop: base[i] becomes first code less index. */
  method FillBase(limit: array<int>, base: array<int>, ghost len: Lengths, minLen: nat, maxLen: nat)
    requires limit != base && limit.Length == base.Length == MAX_ALPHA
    requires minLen == MinLen(len) <= maxLen <= 20
    requires forall i :: 0 <= i <= 22 ==> base[i] == Less(len, i)
    requires forall l :: minLen <= l <= maxLen ==> limit[l] == First(len, l) + Count(len, l) - 1
    modifies base
    ensures forall l :: minLen <= l <= maxLen ==> base[l] == First(len, l) - Less(len, l)
  {
    hide Less, Count, MinLen;
    FirstLow(len, minLen);
    for i := minLen + 1 to maxLen + 1
      invariant forall k :: i <= k <= 22 ==> base[k] == Less(len, k)
      invariant forall k :: minLen <= k < i ==> base[k] == First(len, k) - Less(len, k)
    {
      assert limit[i - 1] == First(len, i - 1) + Count(len, i - 1) - 1;
      base[i] := 2 * (limit[i - 1] + 1) - base[i];
    }
  }

  lemma {:induction false} LengthRange(len: Lengths)
    ensures 1 <= MinLen(len) <= MaxLen(len) <= 20
    ensures forall i :: 0 <= i < |len| ==> MinLen(len) <= len[i] <= MaxLen(len)
  {
    assert MaxLen(len) in len && MinLen(len) in len;
  }

  /** BZ2_hbCreateDecodeTables */
  method CreateDecodeTables(limit: array<int>, base: array<int>, perm: array<int>, length: Lengths,
                            minLen: nat, maxLen: nat)
    requires limit.Length == base.Length == perm.Length == MAX_ALPHA
    requires limit != base && limit != perm && base != perm
    requires minLen == MinLen(length) && maxLen == MaxLen(length)
    modifies limit, base, perm
    ensures Tables(minLen, limit[..], base[..], perm[..]).For(length)
  {
    hide Less, Count, First, LF;
    LengthRange(length);
    FillPerm(perm, length, minLen, maxLen);
    CountShorter(base, length);
    FillLimits(limit, base, length, minLen, maxLen);
    FillBase(limit, base, length, minLen, maxLen);
  }
}
