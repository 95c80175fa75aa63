/** The two inversions of the block transform: FAST packs a byte and a back
    link into each word of tt; SMALL keeps 20-bit links split over ll16/ll4 and
    reverses one cycle of pointers in place. */
module InverseBwt {
  import opened Bits
  import opened Permutations
  import opened BwtSpec

  /** Largest block: 900000 bytes, so indices fit the 20-bit links. */
  const BLOCK_MAX: nat := 900000

  // ------------------------------------------------------------ bucket starts

  ghost predicate Histogram(h: seq<int>, l: Text) {
    |h| == 256 && forall c :: 0 <= c < 256 ==> h[c] == Count(l, c)
  }

  ghost predicate BucketStarts(t: seq<int>, l: Text) {
    |t| == 257 && forall c :: 0 <= c <= 256 ==> t[c] == Less(l, c)
  }

  lemma {:induction false} LessZero(l: Text)
    ensures Less(l, 0) == 0
  {
    if l != [] { LessZero(l[..|l| - 1]); }
  }

  lemma {:induction false} LessAll(l: Text)
    ensures Less(l, 256) == |l|
  {
    if l != [] { LessAll(l[..|l| - 1]); }
  }

  lemma {:induction false} LessMono(l: Text, c: int, d: int)
    requires c <= d
    ensures Less(l, c) <= Less(l, d)
  {
    if l != [] { LessMono(l[..|l| - 1], c, d); }
  }

  method BuildCftab(unzftab: array<int>, cftab: array<int>, ghost l: Text)
    requires unzftab != cftab && cftab.Length == 257 && Histogram(unzftab[..], l)
    modifies cftab
    ensures BucketStarts(cftab[..], l)
  {
    cftab[0] := 0;
    for i := 1 to 257
      invariant cftab[0] == 0
      invariant forall c :: 0 < c < i ==> cftab[c] == Count(l, c - 1)
    {
      cftab[i] := unzftab[..][i - 1];
    }
    LessZero(l);
    for i := 1 to 257
      invariant forall c :: 0 <= c < i ==> cftab[c] == Less(l, c)
      invariant forall c :: i <= c < 257 ==> cftab[c] == Count(l, c - 1)
    {
      LessNext(l, i - 1);
      cftab[i] := cftab[i] + cftab[i - 1];
    }
  }

  /** Bucket starts advanced past the first i characters. */
  ghost predicate Advanced(t: seq<int>, l: Text, i: nat)
    requires i <= |l|
  {
    |t| == 257 && forall c :: 0 <= c < 256 ==> t[c] == Less(l, c) + Count(l[..i], c)
  }

  lemma {:induction false} AdvanceOne(l: Text, i: nat, c: int)
    requires i < |l|
    ensures Count(l[..i + 1], c) == Count(l[..i], c) + (if l[i] == c then 1 else 0)
  {
    assert l[..i + 1][..i] == l[..i];
  }

  lemma {:induction false} AdvanceTable(t: seq<int>, l: Text, i: nat)
    requires i < |l| && Advanced(t, l, i)
    ensures t[l[i]] == LF(l, i)
    ensures Advanced(t[l[i] := t[l[i]] + 1], l, i + 1)
  {
    forall c: int | 0 <= c < 256
      ensures Count(l[..i + 1], c) == Count(l[..i], c) + (if l[i] == c then 1 else 0)
    {
      AdvanceOne(l, i, c);
    }
  }

  // --------------------------------------------------------------------- FAST

  /** Words after the first i back links were or-ed in. */
  ghost predicate FastPartial(t: seq<nat>, l: Text, p: seq<nat>, i: nat) {
    && |l| == |p| <= |t|
    && forall j :: 0 <= j < |l| ==> t[j] == l[j] + 0x100 * (if p[j] < i then p[j] else 0)
  }

  /** Every word holds its byte and its link. */
  ghost predicate FastReady(t: seq<nat>, l: Text, p: seq<nat>) {
    |l| == |p| <= |t| && forall j :: 0 <= j < |l| ==> t[j] == l[j] + 0x100 * p[j]
  }

  lemma {:induction false} FastStep(t: seq<nat>, l: Text, p: seq<nat>, i: nat, r: nat)
    requires FastPartial(t, l, p, i) && i < |l| && r < |l|
    requires p[r] == i && forall j :: 0 <= j < |p| && j != r ==> p[j] != i
    ensures t[i] % 0x100 == l[i]
    ensures t[r] < 0x100
    ensures FastPartial(t[r := t[r] + i * 0x100], l, p, i + 1)
  {
  }

  /** p sends every position's row back to the position. */
  ghost predicate Undoes(p: seq<nat>, l: Text) {
    |p| == |l| && IsPerm(p) && forall i :: 0 <= i < |l| ==> p[LF(l, i)] == i
  }

  /** tt[r] |= i << 8, where only the low byte of tt[r] is set. */
  method OrLink(tt: array<nat>, r: nat, i: nat)
    requires r < tt.Length && tt[r] < 0x100
    modifies tt
    ensures tt[..] == old(tt[..])[r := old(tt[r]) + i * 0x100]
  {
    Pow2Values();
    var word := OrShifted(tt[r], i, 8);
    tt[r] := word;
  }

  method BuildFast(tt: array<nat>, cftab: array<int>, nblock: nat, ghost l: Text, ghost p: seq<nat>)
    requires nblock == |l| <= tt.Length && BucketStarts(cftab[..], l) && Undoes(p, l)
    requires forall j :: 0 <= j < nblock ==> tt[j] == l[j]
    modifies tt, cftab
    ensures FastReady(tt[..], l, p)
  {
    assert Advanced(cftab[..], l, 0);
    for i := 0 to nblock
      invariant Advanced(cftab[..], l, i)
      invariant FastPartial(tt[..], l, p, i)
    {
      ghost var f := cftab[..];
      FastStep(tt[..], l, p, i, LF(l, i));
      AdvanceTable(f, l, i);
      var uc := LowByte(tt[i]);
      OrLink(tt, cftab[uc], i);
      cftab[uc] := cftab[uc] + 1;
      assert cftab[..] == f[l[i] := f[l[i]] + 1];
    }
  }

  // ------------------------------------------------------- SMALL: packed links

  /** 20-bit links: 16 low bits in ll16, the top nibble in half a byte of ll4. */
  class PackedLinks {
    const ll16: array<nat>
    const ll4: array<nat>

    constructor (size: nat)
      ensures Valid() && fresh(ll16) && fresh(ll4) && ll16.Length == size
    {
      ll16 := new nat[size](_ => 0);
      ll4 := new nat[(1 + size) / 2](_ => 0);
    }

    ghost predicate Valid()
      reads ll16, ll4
    {
      && ll4 != ll16 && ll4.Length == (1 + ll16.Length) / 2
      && (forall i :: 0 <= i < ll16.Length ==> ll16[i] < 0x10000)
      && (forall i :: 0 <= i < ll4.Length ==> ll4[i] < 0x100)
    }

    ghost function Nibble(i: nat): nat
      reads ll4
      requires i / 2 < ll4.Length
    {
      if i % 2 == 0 then ll4[i / 2] % 16 else ll4[i / 2] / 16
    }

    ghost function Link(i: nat): nat
      reads ll16, ll4
      requires i < ll16.Length && i / 2 < ll4.Length
    {
      ll16[i] + 0x10000 * Nibble(i)
    }

    /** The links as one plain sequence. */
    ghost function Links(): (s: seq<nat>)
      reads ll16, ll4
      requires Valid()
      ensures |s| == ll16.Length && forall i :: 0 <= i < |s| ==> s[i] == Link(i)
    {
      seq(ll16.Length, i requires 0 <= i < ll16.Length reads ll16, ll4 requires i / 2 < ll4.Length => Link(i))
    }

    /** GET_LL */
    method Get(i: nat) returns (v: nat)
      requires Valid() && i < ll16.Length
      ensures v == Links()[i]
    {
      var nibble := GetNibble(i);
      Pow2Values();
      v := OrShifted(ll16[i], nibble, 16);
    }

    /** GET_LL4 */
    method GetNibble(i: nat) returns (n: nat)
      requires i / 2 < ll4.Length && ll4[i / 2] < 0x100
      ensures n == Nibble(i)
    {
      var shift := NibbleShift(i);
      Pow2Values();
      assert Pow2(0) == 1;
      n := LowNibble(ll4[i / 2] / Pow2(shift));
    }

    /** SET_LL */
    method Set(i: nat, n: nat)
      requires Valid() && i < ll16.Length && n < 0x100000
      modifies ll16, ll4
      ensures Valid() && Links() == old(Links())[i := n]
      ensures forall j :: 0 <= j < ll16.Length && j != i ==> ll16[j] == old(ll16[j])
    {
      var low := LowHalf(n);
      ll16[i] := low;
      SetNibble(i, n / 0x10000);
      assert Link(i) == n;
      forall j | 0 <= j < ll16.Length && j != i ensures Link(j) == old(Links())[j] {
        assert Nibble(j) == old(Nibble(j));
      }
    }

    /** SET_LL4 */
    method SetNibble(i: nat, n: nat)
      requires ll4 != ll16 && i / 2 < ll4.Length && n < 16
      requires forall k :: 0 <= k < ll4.Length ==> ll4[k] < 0x100
      modifies ll4
      ensures forall k :: 0 <= k < ll4.Length ==> ll4[k] < 0x100
      ensures Nibble(i) == n
      ensures forall j :: 0 <= j < 2 * ll4.Length && j != i ==> Nibble(j) == old(Nibble(j))
    {
      Pow2Values();
      if i % 2 == 0 {
        var high := HighNibble(ll4[i / 2]);
        var b := OrShifted(n, high / 16, 4);
        ll4[i / 2] := b;
      } else {
        var low := LowNibble(ll4[i / 2]);
        var b := OrShifted(low, n, 4);
        ll4[i / 2] := b;
      }
    }
  }

  // ------------------------------------------------- SMALL: the forward vector

  method BuildSmall(ll: PackedLinks, cftabCopy: array<int>, nblock: nat, ghost l: Text)
    requires ll.Valid() && nblock == |l| <= ll.ll16.Length && nblock <= BLOCK_MAX
    requires BucketStarts(cftabCopy[..], l)
    requires forall j :: 0 <= j < nblock ==> ll.ll16[j] == l[j]
    modifies ll.ll16, ll.ll4, cftabCopy
    ensures ll.Valid() && forall k :: 0 <= k < nblock ==> ll.Links()[k] == LF(l, k)
  {
    assert Advanced(cftabCopy[..], l, 0);
    for i := 0 to nblock
      invariant ll.Valid() && Advanced(cftabCopy[..], l, i)
      invariant forall k :: 0 <= k < i ==> ll.Links()[k] == LF(l, k)
      invariant forall k :: i <= k < nblock ==> ll.ll16[k] == l[k]
    {
      ghost var f := cftabCopy[..];
      AdvanceTable(f, l, i);
      var uc := ll.ll16[i] % 256;
      ll.Set(i, cftabCopy[uc]);
      cftabCopy[uc] := cftabCopy[uc] + 1;
      assert cftabCopy[..] == f[l[i] := f[l[i]] + 1];
    }
  }

  // ---------------------------------------------- SMALL: reversing one cycle

  /** On ring, a set closed under p, the links are p's. */
  ghost predicate SmallReady(links: seq<nat>, p: seq<nat>, ring: set<nat>) {
    && |p| <= |links|
    && (forall x :: x in ring ==> x < |p|)
    && (forall x {:trigger links[x]} :: x in ring ==> links[x] == p[x] && p[x] in ring)
  }

  ghost predicate Reversed(links: seq<nat>, f: seq<nat>, o: nat, m: nat, t: nat)
    requires IsPerm(f) && o < |f|
  {
    && |f| <= |links|
    && (forall s: nat :: 0 < s <= t ==> links[Iter(f, o, s)] == Iter(f, o, s - 1))
    && (forall s: nat :: t < s <= m ==> links[Iter(f, o, s)] == Iter(f, o, s + 1))
  }

  lemma {:induction false} RingDistinct(f: seq<nat>, o: nat, m: nat, a: nat, b: nat)
    requires IsPerm(f) && o < |f| && IsCycle(f, o, m) && 0 < a < b <= m
    ensures Iter(f, o, a) != Iter(f, o, b)
  {
    if b < m {
      CycleDistinct(f, o, m, a, b);
    }
  }

  lemma {:induction false} ReverseStep(links: seq<nat>, f: seq<nat>, o: nat, m: nat, t: nat)
    requires IsPerm(f) && o < |f| && IsCycle(f, o, m) && t < m && Reversed(links, f, o, m, t)
    ensures Reversed(links[Iter(f, o, t + 1) := Iter(f, o, t)], f, o, m, t + 1)
  {
    hide Iter, IsCycle, Distinct;
    var links' := links[Iter(f, o, t + 1) := Iter(f, o, t)];
    forall s: nat | 0 < s <= t ensures links'[Iter(f, o, s)] == Iter(f, o, s - 1) {
      RingDistinct(f, o, m, s, t + 1);
    }
    forall s: nat | t + 1 < s <= m ensures links'[Iter(f, o, s)] == Iter(f, o, s + 1) {
      RingDistinct(f, o, m, t + 1, s);
    }
  }

  ghost function Ring(f: seq<nat>, o: nat, m: nat): set<nat>
    requires InRange(f) && o < |f|
  {
    set s: nat | 0 < s <= m :: Iter(f, o, s)
  }

  /** Reversing the cycle of o turned its forward links into back links. */
  lemma {:induction false} ReversedReady(links: seq<nat>, f: seq<nat>, p: seq<nat>, o: nat, m: nat)
    requires IsPerm(f) && o < |f| == |p| && IsCycle(f, o, m)
    requires forall x :: 0 <= x < |f| ==> p[f[x]] == x
    requires Reversed(links, f, o, m, m)
    ensures SmallReady(links, p, Ring(f, o, m)) && o in Ring(f, o, m)
  {
    var ring := Ring(f, o, m);
    assert Iter(f, o, m) == o;
    forall x | x in ring ensures x < |f| && links[x] == p[x] && p[x] in ring {
      var s: nat :| 0 < s <= m && x == Iter(f, o, s);
      var y := Iter(f, o, s - 1);
      assert x == f[y];
      assert y in ring by {
        if s == 1 { assert y == Iter(f, o, m); }
      }
    }
  }

  lemma {:induction false} ReverseStart(links: seq<nat>, f: seq<nat>, o: nat, m: nat)
    requires IsPerm(f) && o < |f| <= |links| && IsCycle(f, o, m)
    requires forall x :: 0 <= x < |f| ==> links[x] == f[x]
    ensures Iter(f, o, 0) == o && links[o] == Iter(f, o, 1) && Reversed(links, f, o, m, 0) && m > 0
  {
    assert Iter(f, o, 1) == f[Iter(f, o, 0)];
    forall s: nat | 0 < s <= m ensures links[Iter(f, o, s)] == Iter(f, o, s + 1) {
      assert Iter(f, o, s + 1) == f[Iter(f, o, s)];
    }
  }

  /** One turn of the loop: the link ahead, and whether the cycle is closed. */
  lemma {:induction false} ReverseTurn(links: seq<nat>, f: seq<nat>, o: nat, m: nat, t: nat)
    requires IsPerm(f) && o < |f| && IsCycle(f, o, m) && t < m && Reversed(links, f, o, m, t)
    ensures Iter(f, o, t + 1) < |f| <= |links| && Iter(f, o, t) < |f|
    ensures links[Iter(f, o, t + 1)] == Iter(f, o, t + 2)
    ensures Iter(f, o, t + 1) == o <==> t + 1 == m
    ensures Reversed(links[Iter(f, o, t + 1) := Iter(f, o, t)], f, o, m, t + 1)
  {
    ReverseStep(links, f, o, m, t);
    hide Iter;
    assert t < t + 1 <= m;
  }

  method ReversePointers(ll: PackedLinks, origPtr: nat, ghost f: seq<nat>, ghost p: seq<nat>)
    returns (ghost ring: set<nat>)
    requires ll.Valid() && IsPerm(f) && origPtr < |f| == |p| <= BLOCK_MAX && |f| <= ll.ll16.Length
    requires forall x :: 0 <= x < |f| ==> ll.Links()[x] == f[x]
    requires forall x :: 0 <= x < |f| ==> p[f[x]] == x
    modifies ll.ll16, ll.ll4
    ensures ll.Valid() && SmallReady(ll.Links(), p, ring) && origPtr in ring
  {
    hide Reversed, SmallReady, Iter, IsCycle, Distinct, PackedLinks.Valid;
    ghost var m := CycleExists(f, origPtr);
    ghost var t: nat := 0;
    ReverseStart(ll.Links(), f, origPtr, m);
    var i := origPtr;
    var j := ll.Get(i);
    var more := true;
    while more
      invariant ll.Valid() && t <= m && more == (t < m)
      invariant i == Iter(f, origPtr, t) && j == Iter(f, origPtr, t + 1)
      invariant Reversed(ll.Links(), f, origPtr, m, t)
      decreases m - t
    {
      ReverseTurn(ll.Links(), f, origPtr, m, t);
      var tmp := ll.Get(j);
      ll.Set(j, i);
      i := j;
      j := tmp;
      t := t + 1;
      more := i != origPtr;
    }
    ReversedReady(ll.Links(), f, p, origPtr, m);
    ring := Ring(f, origPtr, m);
  }

  // ----------------------------------------------- SMALL: the first column

  /** BZ2_indexIntoF: the bucket that row indx of the first column lies in. */
  method IndexIntoF(indx: int, cftab: array<int>) returns (nb: int)
    requires cftab.Length == 257 && cftab[0] <= indx < cftab[256]
    ensures 0 <= nb < 256 && cftab[nb] <= indx < cftab[nb + 1]
  {
    nb := 0;
    var na := 256;
    var more := true;
    while more
      invariant 0 <= nb < na <= 256 && cftab[nb] <= indx < cftab[na]
      invariant more == (na - nb != 1)
      decreases na - nb
    {
      var mid := (nb + na) / 2;
      if indx >= cftab[mid] { nb := mid; } else { na := mid; }
      more := na - nb != 1;
    }
  }

  /** The bucket around row x is the character that sorts to x. */
  lemma {:induction false} BucketIsChar(l: Text, x: nat, c: int)
    requires x < |l| && Less(l, c) <= x < Less(l, c + 1)
    ensures c == l[Back(l)[x]]
  {
    var k := Back(l)[x];
    var d: int := l[k];
    LFBucket(l, k);
    LessNext(l, d);
    if d < c {
      LessMono(l, d + 1, c);
    } else if c < d {
      LessMono(l, c + 1, d);
    }
  }

  // ------------------------------------------------------------------ fetches

  /** BZ_GET_FAST */
  method GetFast(tt: array<nat>, tPos: nat, ghost l: Text, ghost p: seq<nat>) returns (c: Byte, next: nat)
    requires FastReady(tt[..], l, p) && tPos < |l|
    ensures c == l[tPos] && next == p[tPos]
  {
    var word := tt[tPos];
    assert word == tt[..][tPos];
    c := LowByte(word);
    next := word / 0x100;
  }

  /** The bucket of row x names the character linked from x. */
  ghost predicate FirstColumn(t: seq<int>, l: Text, p: seq<nat>)
    requires |l| == |p| && InRange(p)
  {
    && |t| == 257 && t[0] == 0 && t[256] == |l|
    && forall x, c, d :: 0 <= x < |p| && 0 <= c < d == c + 1 <= 256 && t[c] <= x < t[d] ==> l[p[x]] == c
  }

  lemma {:induction false} StartsGiveFirstColumn(t: seq<int>, l: Text)
    requires BucketStarts(t, l)
    ensures FirstColumn(t, l, Back(l))
  {
    LessZero(l);
    LessAll(l);
    forall x, c, d | 0 <= x < |l| && 0 <= c < d == c + 1 <= 256 && t[c] <= x < t[d]
      ensures l[Back(l)[x]] == c
    {
      BucketIsChar(l, x, c);
    }
  }

  /** BZ_GET_SMALL */
  method GetSmall(ll: PackedLinks, cftab: array<int>, tPos: nat, ghost l: Text, ghost p: seq<nat>, ghost ring: set<nat>)
    returns (c: Byte, next: nat)
    requires ll.Valid() && |l| == |p| && InRange(p) && FirstColumn(cftab[..], l, p)
    requires SmallReady(ll.Links(), p, ring) && tPos in ring
    ensures c == l[p[tPos]] && next == p[tPos] && next in ring
  {
    ghost var t := cftab[..];
    assert forall i :: 0 <= i < 257 ==> cftab[i] == t[i];
    c := IndexIntoF(tPos, cftab);
    assert t[c] <= tPos < t[c + 1];
    next := ll.Get(tPos);
  }

  lemma {:induction false} BackUndoes(l: Text)
    ensures Undoes(Back(l), l)
    ensures IsPerm(LFSeq(l)) && forall x :: 0 <= x < |l| ==> Back(l)[LFSeq(l)[x]] == x
  {
    LFIsPerm(l);
  }

  /** Both tables for FAST: afterwards each word of tt holds byte and link. */
  method InvertFast(tt: array<nat>, unzftab: array<int>, cftab: array<int>, nblock: nat, ghost l: Text)
    requires unzftab != cftab && cftab.Length == 257 && Histogram(unzftab[..], l)
    requires nblock == |l| <= tt.Length && forall j :: 0 <= j < nblock ==> tt[j] == l[j]
    modifies tt, cftab
    ensures FastReady(tt[..], l, Back(l))
  {
    hide *;
    BuildCftab(unzftab, cftab, l);
    BackUndoes(l);
    BuildFast(tt, cftab, nblock, l, Back(l));
  }

  /** The tables for SMALL: afterwards the links on the cycle of origPtr run
      backwards and cftab still holds the bucket starts. */
  method InvertSmall(ll: PackedLinks, unzftab: array<int>, cftab: array<int>, cftabCopy: array<int>,
                     nblock: nat, origPtr: nat, ghost l: Text)
    returns (ghost ring: set<nat>)
    requires unzftab != cftab && cftab != cftabCopy && cftab.Length == cftabCopy.Length == 257
    requires Histogram(unzftab[..], l) && ll.Valid()
    requires origPtr < nblock == |l| <= ll.ll16.Length && nblock <= BLOCK_MAX
    requires forall j :: 0 <= j < nblock ==> ll.ll16[j] == l[j]
    modifies ll.ll16, ll.ll4, cftab, cftabCopy
    ensures ll.Valid() && FirstColumn(cftab[..], l, Back(l))
    ensures SmallReady(ll.Links(), Back(l), ring) && origPtr in ring
  {
    hide *;
    BuildCftab(unzftab, cftab, l);
    CopyTable(cftab, cftabCopy);
    ghost var starts := cftab[..];
    ring := InvertLinks(ll, cftabCopy, nblock, origPtr, l);
    assert cftab[..] == starts;
    StartsGiveFirstColumn(starts, l);
  }

  method CopyTable(from: array<int>, to: array<int>)
    requires from != to && from.Length == to.Length
    modifies to
    ensures to[..] == from[..]
  {
    for i := 0 to to.Length
      invariant forall k :: 0 <= k < i ==> to[k] == from[k]
    {
      to[i] := from[i];
    }
  }

  /** Build the forward links and reverse the cycle of origPtr. */
  method InvertLinks(ll: PackedLinks, cftabCopy: array<int>, nblock: nat, origPtr: nat, ghost l: Text)
    returns (ghost ring: set<nat>)
    requires BucketStarts(cftabCopy[..], l) && ll.Valid()
    requires origPtr < nblock == |l| <= ll.ll16.Length && nblock <= BLOCK_MAX
    requires forall j :: 0 <= j < nblock ==> ll.ll16[j] == l[j]
    modifies ll.ll16, ll.ll4, cftabCopy
    ensures ll.Valid() && SmallReady(ll.Links(), Back(l), ring) && origPtr in ring
  {
    hide *;
    BuildSmall(ll, cftabCopy, nblock, l);
    BackUndoes(l);
    ring := ReversePointers(ll, origPtr, LFSeq(l), Back(l));
  }
}
