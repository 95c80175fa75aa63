/** huft_build as its callers see it: lengths in, tables out, and the codes of
    RFC 1951 as what the tables decode. */
module InflateTables {
  import opened Bits
  import opened BitString
  import opened BwtSpec
  import opened CodeSpace
  import opened HuftTables
  import opened HuftLookup
  import opened HuftBuild
  import Huffman

  const N_MAX: nat := 288

  type CodeLengths = b: Text | 0 < |b| <= 288 && (forall i :: 0 <= i < |b| ==> b[i] <= 16) witness [1]

  // ----------------------------------------------- the codes of section 3.2.2

  /** Step 2 of the algorithm in section 3.2.2 of RFC 1951: the smallest code of
      each length. */
  function FirstCode(b: Text, k: nat): nat {
    if k == 0 then 0 else 2 * (FirstCode(b, k - 1) + (if k == 1 then 0 else Count(b, k - 1)))
  }

  /** Step 3: consecutive values for the symbols of one length. */
  function CodeOf(b: Text, sym: nat): nat
    requires sym < |b|
  {
    FirstCode(b, b[sym]) + Count(b[..sym], b[sym])
  }

  /** The code as it comes in the stream. */
  function Codeword(b: Text, sym: nat): (r: seq<Bit>)
    requires sym < |b|
    ensures |r| == b[sym]
  {
    BitsOf(CodeOf(b, sym), b[sym])
  }

  /** How many symbols have each length. */
  ghost predicate Counted(b: Text, c: Counts) {
    forall k :: 0 <= k <= BMAX ==> c[k] == Count(b, k)
  }

  lemma {:induction false} FirstCodeIs(b: Text, c: Counts, k: nat)
    requires Counted(b, c) && 1 <= k <= BMAX
    ensures FirstCode(b, k) == 2 * UpTo(c, k - 1)
  {
    if k == 1 {
      assert FirstCode(b, 0) == 0;
    } else {
      FirstCodeIs(b, c, k - 1);
    }
  }

  // ---------------------------------------------------------------- the counts

  lemma {:induction false} CountMore(b: Text, i: nat, k: int)
    requires i < |b|
    ensures Count(b[..i + 1], k) == Count(b[..i], k) + (if b[i] == k then 1 else 0)
  {
    assert b[..i + 1][..i] == b[..i];
  }

  lemma {:induction false} CountBelow(b: Text, i: nat)
    requires i < |b|
    ensures Count(b[..i], b[i]) < Count(b, b[i])
  {
    CountMore(b, i, b[i]);
    CountMono(b, b[i], i + 1, |b|);
    assert b[..|b|] == b;
  }

  /** "Generate counts for each bit length" */
  method CountLengths(b: CodeLengths) returns (c: Counts)
    ensures Counted(b, c)
  {
    hide Count;
    c := seq(17, _ => 0);
    assert b[..0] == [];
    NoCount();
    for i := 0 to |b|
      invariant forall k :: 0 <= k <= BMAX ==> c[k] == Count(b[..i], k)
    {
      forall k | 0 <= k <= BMAX ensures Count(b[..i + 1], k) == Count(b[..i], k) + (if b[i] == k then 1 else 0) {
        CountMore(b, i, k);
      }
      c := c[b[i] as int := c[b[i] as int] + 1];
    }
    assert b[..|b|] == b;
  }

  lemma {:induction false} NoCount()
    ensures forall k :: Count([], k) == 0
  {
  }

  /** All the counts together are all the symbols. */
  lemma {:induction false} CountAll(b: Text, c: Counts)
    requires (forall i :: 0 <= i < |b| ==> b[i] <= 16) && Counted(b, c)
    ensures Num(c, BMAX) + c[0] == |b|
    decreases |b|
  {
    if b == [] {
      NoCount();
      NumZero(c, BMAX);
    } else {
      var init, last := b[..|b| - 1], b[|b| - 1];
      var c' := c[last as int := c[last as int] - 1];
      forall k | 0 <= k <= BMAX ensures c'[k] == Count(init, k) {
        assert Count(b, k) == Count(init, k) + (if last == k then 1 else 0);
      }
      CountAll(init, c');
      NumChange(c', last as int, BMAX);
      assert c == c'[last as int := c'[last as int] + 1];
    }
  }

  lemma {:induction false} NumZero(c: Counts, k: nat)
    requires k <= BMAX && forall j :: 0 <= j <= BMAX ==> c[j] == 0
    ensures Num(c, k) == 0
  {
    if k > 0 { NumZero(c, k - 1); }
  }

  lemma {:induction false} NumChange(c: Counts, j: nat, k: nat)
    requires j <= BMAX && k <= BMAX
    ensures Num(c[j := c[j] + 1], k) == Num(c, k) + (if 1 <= j <= k then 1 else 0)
  {
    if k > 0 { NumChange(c, j, k - 1); }
  }

  /** The shortest and the longest code. */
  ghost predicate Range(c: Counts, kmin: nat, g: nat) {
    && 1 <= kmin <= g <= BMAX && c[kmin] > 0 && c[g] > 0
    && (forall k :: 1 <= k < kmin ==> c[k] == 0) && forall k :: g < k <= BMAX ==> c[k] == 0
  }

  lemma {:induction false} SomeLength(c: Counts)
    requires Num(c, BMAX) > 0
    ensures exists k :: 1 <= k <= BMAX && c[k] > 0
  {
    if forall k :: 1 <= k <= BMAX ==> c[k] == 0 {
      NumNone(c, BMAX);
    }
  }

  lemma {:induction false} NumNone(c: Counts, k: nat)
    requires k <= BMAX && forall j :: 1 <= j <= k ==> c[j] == 0
    ensures Num(c, k) == 0 && UpTo(c, k) == 0
  {
    if k > 0 { NumNone(c, k - 1); }
  }

  /** "Find minimum and maximum length" */
  method FindRange(c: Counts) returns (j: nat, i: nat)
    requires exists k :: 1 <= k <= BMAX && c[k] > 0
    ensures Range(c, j, i)
  {
    ghost var k0: nat :| 1 <= k0 <= BMAX && c[k0] > 0;
    j := 1;
    while j <= BMAX && c[j] == 0
      invariant 1 <= j <= k0 && forall k :: 1 <= k < j ==> c[k] == 0
    {
      j := j + 1;
    }
    i := BMAX;
    while i != 0 && c[i] == 0
      invariant k0 <= i <= BMAX && forall k :: i < k <= BMAX ==> c[k] == 0
    {
      i := i - 1;
    }
  }

  /** l bounded by the range of lengths. */
  function Clamp(m: nat, kmin: nat, g: nat): nat {
    var l := if m < kmin then kmin else m;
    if l > g then g else l
  }

  // ----------------------------------------------------- too many codes, or too few

  /** More codes than the lengths leave room for. */
  ghost predicate Oversubscribed(c: Counts, g: nat)
    requires g <= BMAX
  {
    UpTo(c, g) > Pow2(g)
  }

  /** Once there are too many, there stay too many. */
  lemma {:induction false} StaysOver(c: Counts, j: nat, g: nat)
    requires j <= g <= BMAX && UpTo(c, j) > Pow2(j)
    ensures UpTo(c, g) > Pow2(g)
  {
    if j < g { StaysOver(c, j, g - 1); }
  }

  /** "Adjust last length count to fill out codes, if needed" */
  method FillOut(c: Counts, kmin: nat, g: nat) returns (over: bool, y: nat, c': Counts)
    requires Range(c, kmin, g)
    ensures over <==> Oversubscribed(c, g)
    ensures !over ==> y == Pow2(g) - UpTo(c, g) && c' == c[g := c[g] + y] && Complete(c', g)
  {
    hide Pow2;
    y, c' := 0, c;
    var j, left: int := kmin, Pow2(kmin);
    NumNone(c, kmin - 1);
    PowStep(kmin);
    while j < g
      invariant kmin <= j <= g && left == Pow2(j) - 2 * UpTo(c, j - 1)
    {
      left := left - c[j];
      if left < 0 {
        StaysOver(c, j, g);
        return true, y, c';
      }
      PowStep(j + 1);
      j := j + 1;
      left := 2 * left;
    }
    left := left - c[g];
    over := left < 0;
    if !over {
      y := left;
      c' := c[g := c[g] + y];
      UpToBelow(c, c', g - 1);
    }
  }

  lemma {:induction false} PowStep(k: nat)
    requires k > 0
    ensures Pow2(k) == 2 * Pow2(k - 1)
  {
  }

  lemma {:induction false} UpToBelow(c: Counts, c': Counts, k: nat)
    requires k <= BMAX && forall j :: 1 <= j <= k ==> c'[j] == c[j]
    ensures UpTo(c', k) == UpTo(c, k) && Num(c', k) == Num(c, k)
  {
    if k > 0 { UpToBelow(c, c', k - 1); }
  }

  // ----------------------------------------------- the values, in order of length

  /** Where the values of k-bit codes begin. */
  ghost predicate Offsets(x: seq<nat>, c: Counts, g: nat) {
    |x| == 17 && g <= BMAX && forall k :: 1 <= k <= g ==> x[k] == Num(c, k - 1)
  }

  /** "Generate starting offsets into the value table for each length" */
  method MakeOffsets(c: Counts, g: nat) returns (x: seq<nat>)
    requires 1 <= g <= BMAX
    ensures Offsets(x, c, g)
  {
    hide Num;
    x := seq(17, _ => 0);
    var j, xp := 0, 1;
    NumFirst(c);
    while xp < g
      invariant 1 <= xp <= g && j == Num(c, xp - 1) && |x| == 17
      invariant forall k :: 1 <= k <= xp ==> x[k] == Num(c, k - 1)
    {
      NumNext(c, xp);
      j := j + c[xp];
      xp := xp + 1;
      x := x[xp := j];
    }
  }

  lemma {:induction false} NumFirst(c: Counts)
    ensures Num(c, 0) == 0
  {
  }

  lemma {:induction false} NumNext(c: Counts, k: nat)
    requires 1 <= k <= BMAX
    ensures Num(c, k) == Num(c, k - 1) + c[k]
  {
  }

  /** The place of a symbol among those of its length and the shorter ones. */
  function Place(b: Text, c: Counts, sym: nat): nat
    requires sym < |b| && 1 <= b[sym] <= 16
  {
    Num(c, b[sym] as int - 1) + Count(b[..sym], b[sym])
  }

  /** The first i symbols are in their places. */
  ghost predicate Sorted(v: seq<nat>, b: CodeLengths, c: Counts, i: nat) {
    |v| == N_MAX && forall sym :: 0 <= sym < i && sym < |b| && b[sym] > 0 ==> Placed(v, b, c, sym)
  }

  ghost predicate Placed(v: seq<nat>, b: CodeLengths, c: Counts, sym: nat)
    requires sym < |b| && b[sym] > 0
  {
    Place(b, c, sym) < |v| && v[Place(b, c, sym)] == sym
  }

  lemma {:induction false} PlaceBounds(b: CodeLengths, c: Counts, sym: nat)
    requires Counted(b, c) && sym < |b| && b[sym] > 0
    ensures Num(c, b[sym] as int - 1) <= Place(b, c, sym) < Num(c, b[sym] as int) <= |b|
  {
    CountBelow(b, sym);
    NumNext(c, b[sym] as int);
    NumAtMost(c, b[sym] as int, BMAX);
    CountAll(b, c);
  }

  /** Different symbols have different places. */
  lemma {:induction false} PlacesDiffer(b: CodeLengths, c: Counts, s: nat, t: nat)
    requires Counted(b, c) && s < t < |b| && b[s] > 0 && b[t] > 0
    ensures Place(b, c, s) < Place(b, c, t) || Place(b, c, t) < Place(b, c, s)
  {
    PlaceBounds(b, c, s);
    PlaceBounds(b, c, t);
    hide Count, Num;
    if b[s] < b[t] {
      NumAtMost(c, b[s] as int, b[t] as int - 1);
    } else if b[t] < b[s] {
      NumAtMost(c, b[t] as int, b[s] as int - 1);
    } else {
      CountMore(b, s, b[s]);
      CountMono(b, b[s], s + 1, t);
    }
  }

  /** "Make a table of values in order of bit lengths" */
  method SortValues(b: CodeLengths, ghost c: Counts, x0: seq<nat>, g: nat) returns (v: seq<nat>)
    requires Counted(b, c) && Offsets(x0, c, g) && forall i :: 0 <= i < |b| ==> b[i] <= g
    ensures Sorted(v, b, c, |b|)
  {
    hide Count, Num, Placed, Place;
    v := seq(N_MAX, _ => 0);
    var x := x0;
    assert b[..0] == [];
    NoCount();
    for i := 0 to |b|
      invariant |x| == 17 && Sorted(v, b, c, i)
      invariant forall k :: 1 <= k <= g ==> x[k] == Num(c, k - 1) + Count(b[..i], k)
    {
      var j := b[i] as int;
      forall k | 1 <= k <= g ensures Count(b[..i + 1], k) == Count(b[..i], k) + (if j == k then 1 else 0) {
        CountMore(b, i, k);
      }
      if j != 0 {
        PlaceIs(b, c, i);
        PlaceBounds(b, c, i);
        forall sym | 0 <= sym < i && b[sym] > 0 ensures Placed(v[x[j] := i], b, c, sym) {
          assert Placed(v, b, c, sym);
          PlacesDiffer(b, c, sym, i);
          StillPlaced(v, b, c, sym, x[j], i);
        }
        v := v[x[j] := i];
        NowPlaced(v, b, c, i);
        x := x[j := x[j] + 1];
      }
    }
  }

  lemma {:induction false} PlaceIs(b: Text, c: Counts, sym: nat)
    requires sym < |b| && 1 <= b[sym] <= 16
    ensures Place(b, c, sym) == Num(c, b[sym] as int - 1) + Count(b[..sym], b[sym] as int)
  {
  }

  lemma {:induction false} StillPlaced(v: seq<nat>, b: CodeLengths, c: Counts, sym: nat, at: nat, i: nat)
    requires sym < |b| && b[sym] > 0 && Placed(v, b, c, sym) && at < |v| && at != Place(b, c, sym)
    ensures Placed(v[at := i], b, c, sym)
  {
  }

  lemma {:induction false} NowPlaced(v: seq<nat>, b: CodeLengths, c: Counts, sym: nat)
    requires sym < |b| && b[sym] > 0 && Place(b, c, sym) < |v| && v[Place(b, c, sym)] == sym
    ensures Placed(v, b, c, sym)
  {
  }

  // ------------------------------------------------------------------ huft_build

  /** What a symbol stands for. */
  function SymbolOp(sym: nat, simple: nat, d: seq<nat>, e: seq<nat>): Op {
    if sym < simple then Op(if sym < 256 then 16 else 15, sym)
    else if sym - simple < |d| && sym - simple < |e| then Op(e[sym - simple], d[sym - simple])
    else Op(99, 0)
  }

  /** The code set the tables are made for: that of the lengths, filled out with
      dummy codes of the greatest length where there are too few. */
  ghost predicate MadeFor(s: Space, b: CodeLengths, simple: nat, d: seq<nat>, e: seq<nat>) {
    && s.Ok() && Count(b, s.g) > 0 && (forall i :: 0 <= i < |b| ==> b[i] <= s.g)
    && (forall k :: 1 <= k < s.g ==> s.c[k] == Count(b, k)) && s.c[s.g] >= Count(b, s.g)
    && forall sym :: 0 <= sym < |b| && b[sym] > 0 ==> OpPlaced(s, b, simple, d, e, sym)
  }

  ghost predicate OpPlaced(s: Space, b: CodeLengths, simple: nat, d: seq<nat>, e: seq<nat>, sym: nat)
    requires sym < |b| && b[sym] > 0
  {
    Place(b, s.c, sym) < |s.ops| && s.ops[Place(b, s.c, sym)] == SymbolOp(sym, simple, d, e)
  }

  /** huft_build: 0 and no table for all zero lengths; 2 for too many codes; else
      the tables, and 1 if the set was incomplete. */
  method Build(b: CodeLengths, simple: nat, d: seq<nat>, e: seq<nat>, m: nat)
    returns (result: nat, pool: Pool, bits: nat, s: Space, ghost metas: seq<Meta>)
    ensures (forall i :: 0 <= i < |b| ==> b[i] == 0) <==> pool == [] && result == 0
    ensures pool == [] ==> bits == 0 && (result == 0 || result == 2)
    ensures pool != [] ==> Built(s, pool, metas) && MadeFor(s, b, simple, d, e) && bits == s.l && (bits >= m || bits == s.g)
    ensures pool != [] ==> result == if s.c[s.g] > Count(b, s.g) && s.g != 1 then 1 else 0
    ensures result == 2 <==> exists c: Counts, g: nat :: Counted(b, c) && g <= BMAX && Oversubscribed(c, g)
  {
    hide Count, Num, UpTo, Pow2, OpPlaced;
    pool, metas, bits, result, s := [], [], 0, 0, Space(seq(17, _ => 0), 0, 0, []);
    var c := CountLengths(b);
    CountAll(b, c);
    ZeroCount(b, c);
    if c[0] == |b| {
      NeverOver(b, c);
      return;
    }
    SomeLength(c);
    var kmin, g := FindRange(c);
    var l := Clamp(m, kmin, g);
    var over, y, c' := FillOut(c, kmin, g);
    if over {
      return 2, [], 0, s, metas;
    }
    NotOver(b, c, kmin, g);
    var x := MakeOffsets(c, g);
    LongestIs(b, c, g);
    var v := SortValues(b, c, x, g);
    bits := l;
    s := Space(c', g, l, seq(Num(c', g), t requires t >= 0 => OpOf(v, |b|, simple, d, e, t)));
    NumNone(c, kmin - 1);
    UpToBelow(c, c', kmin - 1);
    pool, metas := MakeTables(s, kmin, v, |b|, simple, d, e);
    SomeTable(s, pool, metas);
    ValuesMade(s, b, c, v, simple, d, e);
    result := if y != 0 && g != 1 then 1 else 0;
  }

  lemma {:induction false} SomeTable(s: Space, pool: Pool, metas: seq<Meta>)
    requires Built(s, pool, metas)
    ensures pool != []
  {
  }

  /** All lengths zero. */
  lemma {:induction false} ZeroCount(b: CodeLengths, c: Counts)
    requires Counted(b, c)
    ensures c[0] == |b| <==> forall i :: 0 <= i < |b| ==> b[i] == 0
  {
    CountFull(b);
  }

  lemma {:induction false} CountFull(b: Text)
    ensures Count(b, 0) <= |b| && (Count(b, 0) == |b| <==> forall i :: 0 <= i < |b| ==> b[i] == 0)
  {
    if b != [] { CountFull(b[..|b| - 1]); }
  }

  lemma {:induction false} NeverOver(b: CodeLengths, c: Counts)
    requires Counted(b, c) && c[0] == |b| && Num(c, BMAX) == 0
    ensures forall c': Counts, g: nat :: Counted(b, c') && g <= BMAX ==> !Oversubscribed(c', g)
  {
    forall c': Counts, g: nat | Counted(b, c') && g <= BMAX ensures !Oversubscribed(c', g) {
      assert c' == c;
      forall k | 1 <= k <= BMAX ensures c[k] == 0 { NumAtMost(c, k, BMAX); }
      NumNone(c, g);
    }
  }

  /** Only at the greatest length can codes be too many, if they are at all. */
  lemma {:induction false} NotOver(b: CodeLengths, c: Counts, kmin: nat, g: nat)
    requires Counted(b, c) && Range(c, kmin, g) && !Oversubscribed(c, g)
    ensures forall c': Counts, g': nat :: Counted(b, c') && g' <= BMAX ==> !Oversubscribed(c', g')
  {
    forall c': Counts, g': nat | Counted(b, c') && g' <= BMAX ensures !Oversubscribed(c', g') {
      assert c' == c;
      if Oversubscribed(c, g') {
        if g' <= g { StaysOver(c, g', g); } else { NoneLonger(c, g, g'); }
      }
    }
  }

  lemma {:induction false} NoneLonger(c: Counts, g: nat, g': nat)
    requires g <= g' <= BMAX && UpTo(c, g) <= Pow2(g) && forall k :: g < k <= BMAX ==> c[k] == 0
    ensures UpTo(c, g') <= Pow2(g')
  {
    if g < g' { NoneLonger(c, g, g' - 1); }
  }

  lemma {:induction false} LongestIs(b: CodeLengths, c: Counts, g: nat)
    requires Counted(b, c) && g <= BMAX && forall k :: g < k <= BMAX ==> c[k] == 0
    ensures forall i :: 0 <= i < |b| ==> b[i] <= g
  {
    forall i | 0 <= i < |b| ensures b[i] <= g {
      CountBelow(b, i);
    }
  }

  lemma {:induction false} ValuesMade(s: Space, b: CodeLengths, c: Counts, v: seq<nat>, simple: nat, d: seq<nat>, e: seq<nat>)
    requires s.Ok() && Counted(b, c) && Sorted(v, b, c, |b|) && s.c == c[s.g := s.c[s.g]] && s.c[s.g] >= c[s.g]
    requires forall i :: 0 <= i < |b| ==> b[i] <= s.g
    requires |s.ops| == Num(s.c, s.g) && forall t :: 0 <= t < |s.ops| ==> s.ops[t] == OpOf(v, |b|, simple, d, e, t)
    ensures forall sym :: 0 <= sym < |b| && b[sym] > 0 ==> OpPlaced(s, b, simple, d, e, sym)
  {
    hide Count, Num, UpTo, Pow2;
    forall sym | 0 <= sym < |b| && b[sym] > 0 ensures OpPlaced(s, b, simple, d, e, sym) {
      var k := b[sym] as int;
      PlaceBounds(b, c, sym);
      UpToBelow(c, s.c, k - 1);
      UpToBelow(c, s.c, s.g - 1);
      NumAtMost(c, k, s.g);
      NumNext(c, s.g);
      NumNext(s.c, s.g);
      assert Placed(v, b, c, sym);
    }
  }

  // --------------------------------------------------------- what the tables decode

  lemma {:induction false} CodeRange(s: Space, b: CodeLengths, simple: nat, d: seq<nat>, e: seq<nat>, sym: nat)
    requires MadeFor(s, b, simple, d, e) && sym < |b| && b[sym] > 0
    ensures var k := b[sym] as int;
      && 1 <= k <= s.g && 2 * UpTo(s.c, k - 1) <= CodeOf(b, sym) < UpTo(s.c, k)
      && Num(s.c, k - 1) + CodeOf(b, sym) - 2 * UpTo(s.c, k - 1) == Place(b, s.c, sym)
  {
    hide Count, Num, OpPlaced;
    var k := b[sym] as int;
    var c: Counts := seq(17, k requires 0 <= k < 17 => CountNat(b, k));
    CountBelow(b, sym);
    FirstCodeIs(b, c, k);
    UpToBelow(c, s.c, k - 1);
  }

  function CountNat(b: Text, k: nat): (r: nat)
    ensures r == Count(b, k)
  {
    CountNonNeg(b, k);
    Count(b, k)
  }

  lemma {:induction false} CountNonNeg(b: Text, k: int)
    ensures Count(b, k) >= 0
  {
    if b != [] { CountNonNeg(b[..|b| - 1], k); }
  }

  /** Whatever follows it, the code of a symbol is decoded to what the symbol
      stands for, and exactly its bits are used. */
  lemma {:induction false} CodewordDecoded(s: Space, pool: Pool, metas: seq<Meta>, b: CodeLengths, simple: nat, d: seq<nat>,
                                           e: seq<nat>, sym: nat, stream: seq<Bit>)
    requires Built(s, pool, metas) && MadeFor(s, b, simple, d, e) && Fine(s.c, s.g, s.l)
    requires sym < |b| && b[sym] > 0 && |stream| >= s.g && Codeword(b, sym) <= stream
    ensures Look(pool, 0, s.l, stream, 0) == Found(SymbolOp(sym, simple, d, e), b[sym])
  {
    hide Count, Num, UpTo, Pow2, LenAt, Block, Look, ValueOf, Fine, Built, CodeOf;
    var k, code := b[sym] as int, CodeOf(b, sym);
    CodeRange(s, b, simple, d, e, sym);
    CodeStarts(s, k, code);
    BlockOfStream(stream, s.g, k);
    assert stream[..k] == BitsOf(code, k);
    ValueOfBits(code, k);
    SameCode(s.c, s.g, code * Pow2(s.g - k), ValueOf(stream[..s.g]));
    DecodesIffFine(s, pool, metas);
    assert Decodes(s, pool, stream);
    assert OpPlaced(s, b, simple, d, e, sym);
  }

  /** When the set is complete, every stream starts with some symbol's code. */
  lemma {:induction false} SomeCodeword(s: Space, b: CodeLengths, simple: nat, d: seq<nat>, e: seq<nat>, stream: seq<Bit>)
    returns (sym: nat)
    requires MadeFor(s, b, simple, d, e) && s.c[s.g] == Count(b, s.g) && |stream| >= s.g
    ensures sym < |b| && b[sym] > 0 && Codeword(b, sym) <= stream
  {
    hide Count, Num, Pow2, LenAt, ValueOf, OpPlaced;
    var v := ValueOf(stream[..s.g]);
    BlockOfStream(stream, s.g, 0);
    CodeAt(s.c, s.g, v);
    var k := LenAt(s.c, s.g, v);
    BlockOfStream(stream, s.g, k);
    sym := Huffman.Nth(b, k, Block(s.g, v, k) - 2 * UpTo(s.c, k - 1));
    CodeRange(s, b, simple, d, e, sym);
    var c: Counts := seq(17, k requires 0 <= k < 17 => CountNat(b, k));
    FirstCodeIs(b, c, k);
    UpToBelow(c, s.c, k - 1);
    BitsOfValue(stream[..k]);
  }

  // ------------------------------------------------------- the callers' code sets

  /** Lookups of at least half the greatest length: the code-length codes, and
      the literal codes, of at most 15 bits, with 9 bits to a lookup. */
  lemma {:induction false} HalfFine(c: Counts, g: nat, l: nat)
    requires 1 <= l && g <= 2 * l && g <= BMAX
    ensures Fine(c, g, l)
  {
    if !Fine(c, g, l) {
      var h := NotFine(c, g, l);
      TwoLevels(l, h);
    }
  }

  lemma {:induction false} TwoLevels(l: nat, h: nat)
    requires h >= 1
    ensures Depth(l, h + 1) >= 2 * l
  {
    if h > 1 { TwoLevels(l, h - 1); } else { assert Depth(l, 1) == Depth(l, 0) + l && Depth(l, 2) == Depth(l, 1) + l; }
  }

  /** Codes of more than j bits take up little room. */
  lemma {:induction false} LongCodes(c: Counts, g: nat, j: nat, k: nat)
    requires j < k <= g <= BMAX
    ensures Used(c, g, k) <= Used(c, g, j) + (Num(c, k) - Num(c, j)) * Pow2(g - j - 1)
    decreases k
  {
    hide Used, Pow2;
    UsedStep(c, g, k);
    NumNext(c, k);
    NumAtMost(c, j, k - 1);
    Pow2Mono(g - k, g - j - 1);
    TimesLess(c[k], Pow2(g - k), Pow2(g - j - 1));
    Spread(Num(c, k - 1) - Num(c, j), c[k], Pow2(g - j - 1));
    if j < k - 1 {
      LongCodes(c, g, j, k - 1);
    }
  }

  lemma {:induction false} Spread(a: int, b: nat, p: nat)
    ensures (a + b) * p == a * p + b * p
  {
  }

  lemma {:induction false} TimesLess(a: nat, p: nat, q: nat)
    requires p <= q
    ensures a * p <= a * q
  {
    NonNegative(a, q - p);
    assert a * (q - p) == a * q - a * p;
  }

  /** Fewer codes than a lookup has entries: the distance codes, at most 30 with
      6 bits to a lookup. */
  lemma {:induction false} FewFine(c: Counts, g: nat, l: nat)
    requires Complete(c, g) && 1 <= l && Num(c, g) < Pow2(l)
    ensures Fine(c, g, l)
  {
    hide Used, Pow2, Num, UpTo;
    forall h: nat | h >= 1 && l >= 1 && Depth(l, h + 1) < g <= BMAX ensures Crowded(c, g, l, h) {
      var w := Depth(l, h);
      StepDepth(l, h);
      var j := w + l - 1;
      LongCodes(c, g, j, g);
      UsedAll(c, g);
      NumAtMost(c, j, g);
      Pow2Add(l, g - w - l);
      Pow2Mono(0, g - w - l);
      MulLess(Num(c, g) - Num(c, j), Pow2(l), Pow2(g - w - l));
      assert g - j - 1 == g - w - l && l + (g - w - l) == g - w;
    }
  }

  /** A complete set that is not fine: one code of one bit and four of three, with
      one bit to a lookup. Its last code is never found. */
  lemma {:induction false} NotAlwaysFine() returns (c: Counts, b: CodeLengths)
    ensures b == [1, 3, 3, 3, 3] && Counted(b, c) && Complete(c, 3) && Range(c, 1, 3) && Clamp(1, 1, 3) == 1 && !Fine(c, 3, 1)
    ensures forall s: Space, pool: Pool, metas: seq<Meta> :: s.c == c && s.g == 3 && s.l == 1 && Built(s, pool, metas) ==>
      exists stream: seq<Bit> :: |stream| >= 3 && !Decodes(s, pool, stream)
  {
    c := [0, 1, 0, 4, 0, 0, 0, 0, 0, 0, 0, 0, 0, 0, 0, 0, 0];
    b := [1, 3, 3, 3, 3];
    ExampleCounted(b, c);
    assert UpTo(c, 1) == 1 && UpTo(c, 2) == 2 && UpTo(c, 3) == 8;
    assert Pow2(1) == 2 && Pow2(2) == 4 && Pow2(3) == 8;
    assert Depth(1, 1) == 1 && Depth(1, 2) == 2;
    assert Used(c, 3, 1) == 4;
    assert !Crowded(c, 3, 1, 1);
    forall s: Space, pool: Pool, metas: seq<Meta> | s.c == c && s.g == 3 && s.l == 1 && Built(s, pool, metas)
      ensures exists stream: seq<Bit> :: |stream| >= 3 && !Decodes(s, pool, stream)
    {
      DecodesIffFine(s, pool, metas);
    }
  }

  lemma {:induction false} ExampleCounted(b: Text, c: Counts)
    requires b == [1, 3, 3, 3, 3] && c == [0, 1, 0, 4, 0, 0, 0, 0, 0, 0, 0, 0, 0, 0, 0, 0, 0]
    ensures Counted(b, c)
  {
    forall k | 0 <= k <= BMAX ensures c[k] == Count(b, k) {
      assert b[..4] == [1, 3, 3, 3] && b[..4][..3] == [1, 3, 3] && b[..4][..3][..2] == [1, 3];
      CountFive(b, k);
    }
  }

  lemma {:induction false} CountFive(b: Text, k: int)
    requires |b| == 5
    ensures Count(b, k) == (if b[0] == k then 1 else 0) + (if b[1] == k then 1 else 0) + (if b[2] == k then 1 else 0)
                        + (if b[3] == k then 1 else 0) + (if b[4] == k then 1 else 0)
  {
    NoCount();
    assert b[..0] == [] && b[..5] == b;
    CountMore(b, 0, k);
    CountMore(b, 1, k);
    CountMore(b, 2, k);
    CountMore(b, 3, k);
    CountMore(b, 4, k);
  }
}
