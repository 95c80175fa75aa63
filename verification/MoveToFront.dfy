/** The decoder's move-to-front list: 256 bytes kept as sixteen segments of
    sixteen inside a larger array, so that far moves shift few bytes. */
module MoveToFront {
  import opened Bits
  import opened BwtSpec

  // ------------------------------------------------------------ the plain list

  function ToFront(list: Text, n: nat): (r: Text)
    requires n < |list|
    ensures |r| == |list|
  {
    [list[n]] + list[..n] + list[n + 1..]
  }

  lemma {:induction false} ToFrontAt(list: Text, n: nat, k: nat)
    requires n < |list| && k < |list|
    ensures ToFront(list, n)[k] == if k == 0 then list[n] else if k <= n then list[k - 1] else list[k]
  {
  }

  // ------------------------------------------------------------- the segments

  /** Segments follow each other without overlap inside the array. */
  ghost predicate Apart(base: seq<int>) {
    && |base| == 16 && 0 <= base[0] && base[15] <= 4080
    && forall i, j :: 0 <= i <= j < 16 ==> base[i] + 16 * (j - i) <= base[j]
  }

  function Seg(a: Text, lo: int): (s: Text)
    requires |a| == 4096 && 0 <= lo <= 4080
    ensures |s| == 16
  {
    a[lo..lo + 16]
  }

  function Flat(segs: seq<Text>): (list: Text)
    requires |segs| == 16 && forall i :: 0 <= i < 16 ==> |segs[i]| == 16
    ensures |list| == 256
  {
    seq(256, k requires 0 <= k < 256 => segs[k / 16][k % 16])
  }

  function Segments(a: Text, base: seq<int>): (segs: seq<Text>)
    requires |a| == 4096 && Apart(base)
    ensures |segs| == 16 && forall i :: 0 <= i < 16 ==> segs[i] == Seg(a, base[i])
  {
    seq(16, i requires 0 <= i < 16 => Seg(a, base[i]))
  }

  /** Segment i after element off of segment l moved to the front. */
  function Moved(segs: seq<Text>, l: nat, off: nat, i: nat): (s: Text)
    requires |segs| == 16 && (forall k :: 0 <= k < 16 ==> |segs[k]| == 16) && l < 16 && off < 16 && i < 16
    ensures |s| == 16
  {
    var first := if i == 0 then segs[l][off] else segs[i - 1][15];
    if i < l then [first] + segs[i][..15]
    else if i == l then [first] + segs[i][..off] + segs[i][off + 1..]
    else segs[i]
  }

  ghost predicate Sixteens(segs: seq<Text>) {
    |segs| == 16 && forall i :: 0 <= i < 16 ==> |segs[i]| == 16
  }

  lemma {:induction false} FlatAt(segs: seq<Text>, i: nat, j: nat)
    requires Sixteens(segs) && i < 16 && j < 16
    ensures Flat(segs)[16 * i + j] == segs[i][j]
  {
  }

  lemma {:induction false} MovedAt(segs: seq<Text>, l: nat, off: nat, i: nat, j: nat)
    requires Sixteens(segs) && l < 16 && off < 16 && i < 16 && j < 16
    ensures Moved(segs, l, off, i)[j] == ToFront(Flat(segs), 16 * l + off)[16 * i + j]
  {
    hide Moved, ToFront, Flat;
    MovedElement(segs, l, off, i, j);
    ToFrontAt(Flat(segs), 16 * l + off, 16 * i + j);
    FlatAt(segs, l, off);
    FlatAt(segs, i, j);
    if j > 0 {
      FlatAt(segs, i, j - 1);
    } else if i > 0 {
      FlatAt(segs, i - 1, 15);
    }
  }

  lemma {:induction false} MovedElement(segs: seq<Text>, l: nat, off: nat, i: nat, j: nat)
    requires Sixteens(segs) && l < 16 && off < 16 && i < 16 && j < 16
    ensures Moved(segs, l, off, i)[j] ==
      if i > l || (i == l && j > off) then segs[i][j]
      else if j > 0 then segs[i][j - 1]
      else if i == 0 then segs[l][off] else segs[i - 1][15]
  {
  }

  lemma {:induction false} FlatMoved(segs: seq<Text>, segs': seq<Text>, l: nat, off: nat)
    requires Sixteens(segs) && Sixteens(segs') && l < 16 && off < 16
    requires forall i :: 0 <= i < 16 ==> segs'[i] == Moved(segs, l, off, i)
    ensures Flat(segs') == ToFront(Flat(segs), 16 * l + off)
  {
    hide Moved, ToFront, Flat;
    forall k | 0 <= k < 256 ensures Flat(segs')[k] == ToFront(Flat(segs), 16 * l + off)[k] {
      var i, j := Place(k);
      MovedAt(segs, l, off, i, j);
      FlatAt(segs', i, j);
    }
  }

  lemma {:induction false} Place(k: nat) returns (i: nat, j: nat)
    requires k < 256
    ensures i < 16 && j < 16 && k == 16 * i + j
  {
    i, j := k / 16, k % 16;
  }

  lemma {:induction false} ApartBounds(base: seq<int>, i: nat)
    requires Apart(base) && i < 16
    ensures |base| == 16 && 16 * i <= base[i] <= 3840 + 16 * i
  {
    assert base[0] + 16 * (i - 0) <= base[i];
    assert base[i] + 16 * (15 - i) <= base[15];
  }

  /** Writing outside a segment leaves it alone. */
  lemma {:induction false} SegKept(a: Text, p: int, x: Byte, lo: int)
    requires |a| == 4096 && 0 <= lo <= 4080 && 0 <= p < 4096
    requires p < lo || p >= lo + 16
    ensures Seg(a[p := x], lo) == Seg(a, lo)
  {
  }

  class Mtf {
    const mtfa: array<Byte>
    const mtfbase: array<int>

    ghost predicate Shaped()
      reads mtfa, mtfbase
    {
      mtfa.Length == 4096 && mtfbase.Length == 16 && Apart(mtfbase[..])
    }

    /** There is room for one far move before the next rebuild. */
    ghost predicate Valid()
      reads mtfa, mtfbase
    {
      Shaped() && mtfbase[0] > 0
    }

    /** The list the segments stand for. */
    ghost function List(): (list: Text)
      reads mtfa, mtfbase
      requires Shaped()
      ensures |list| == 256
    {
      Flat(Segments(mtfa[..], mtfbase[..]))
    }

    /** "MTF init" */
    constructor ()
      ensures Valid() && fresh(mtfa) && fresh(mtfbase)
      ensures forall k :: 0 <= k < 256 ==> List()[k] == k
    {
      mtfa := new Byte[4096](_ => 0);
      mtfbase := new int[16](_ => 0);
      new;
      var kk := 4095;
      var ii := 15;
      while ii >= 0
        invariant -1 <= ii < 16 && kk == 3840 + 16 * ii + 15
        invariant forall i :: ii < i < 16 ==> mtfbase[i] == 3840 + 16 * i
        invariant forall k :: kk < k < 4096 ==> mtfa[k] == k - 3840
      {
        var jj := 15;
        while jj >= 0
          invariant -1 <= jj < 16 && kk == 3840 + 16 * ii + jj
          invariant forall i :: ii < i < 16 ==> mtfbase[i] == 3840 + 16 * i
          invariant forall k :: kk < k < 4096 ==> mtfa[k] == k - 3840
        {
          mtfa[kk] := ii * 16 + jj;
          kk := kk - 1;
          jj := jj - 1;
        }
        mtfbase[ii] := kk + 1;
        ii := ii - 1;
      }
    }

    /** The first segment, moved four bytes at a time and then one. */
    method NearToFront(n: nat) returns (uc: Byte)
      requires Valid() && n < 16
      modifies mtfa
      ensures Valid() && uc == old(List())[n] && List() == ToFront(old(List()), n)
    {
      ghost var a, base := mtfa[..], mtfbase[..];
      var pp := mtfbase[0];
      ApartBounds(base, 0);
      uc := mtfa[pp + n];
      ShiftNear(pp, n);
      ghost var b := mtfa[..];
      mtfa[pp] := uc;
      assert mtfa[..] == b[pp := uc];
      NearMoved(a, mtfa[..], base, n);
    }

    /** The elements pp..pp+n move up by one. */
    method ShiftNear(pp: nat, n: nat)
      requires mtfa.Length == 4096 && pp + n < 4096
      modifies mtfa
      ensures forall k :: pp < k <= pp + n ==> mtfa[k] == old(mtfa[..])[k - 1]
      ensures forall k :: 0 <= k < 4096 && !(pp < k <= pp + n) ==> mtfa[k] == old(mtfa[..])[k]
    {
      ghost var a := mtfa[..];
      var nn := n;
      while nn > 3
        invariant 0 <= nn <= n
        invariant forall k :: pp + nn < k <= pp + n ==> mtfa[k] == a[k - 1]
        invariant forall k :: 0 <= k < 4096 && !(pp + nn < k <= pp + n) ==> mtfa[k] == a[k]
      {
        var z := pp + nn;
        mtfa[z] := mtfa[z - 1];
        mtfa[z - 1] := mtfa[z - 2];
        mtfa[z - 2] := mtfa[z - 3];
        mtfa[z - 3] := mtfa[z - 4];
        nn := nn - 4;
      }
      while nn > 0
        invariant 0 <= nn <= n
        invariant forall k :: pp + nn < k <= pp + n ==> mtfa[k] == a[k - 1]
        invariant forall k :: 0 <= k < 4096 && !(pp + nn < k <= pp + n) ==> mtfa[k] == a[k]
      {
        mtfa[pp + nn] := mtfa[pp + nn - 1];
        nn := nn - 1;
      }
    }

    /** The first off bytes at lo move up by one, one at a time. */
    method ShiftFar(lo: nat, off: nat)
      requires mtfa.Length == 4096 && lo + off < 4096
      modifies mtfa
      ensures forall k :: lo < k <= lo + off ==> mtfa[k] == old(mtfa[..])[k - 1]
      ensures forall k :: 0 <= k < 4096 && !(lo < k <= lo + off) ==> mtfa[k] == old(mtfa[..])[k]
    {
      ghost var a := mtfa[..];
      var pp := lo + off;
      while pp > lo
        invariant lo <= pp <= lo + off
        invariant forall k :: pp < k <= lo + off ==> mtfa[k] == a[k - 1]
        invariant forall k :: 0 <= k < 4096 && !(pp < k <= lo + off) ==> mtfa[k] == a[k]
      {
        mtfa[pp] := mtfa[pp - 1];
        pp := pp - 1;
      }
    }

    /** Each segment below l takes in the last byte of the one before it. */
    method CarryDown(l: nat, ghost c: Carry)
      requires mtfa.Length == 4096 && mtfbase.Length == 16
      requires c.Valid() && c.l == l && c.At(mtfa[..], mtfbase[..], l)
      modifies mtfa, mtfbase
      ensures c.At(mtfa[..], mtfbase[..], 0)
    {
      hide *;
      var lno := l;
      CarryRange(c);
      while lno > 0
        invariant 0 <= lno <= l < 16 && c.Valid() && c.l == l
        invariant c.At(mtfa[..], mtfbase[..], lno)
      {
        ghost var a, b := mtfa[..], mtfbase[..];
        CarryStep(c, a, b, lno);
        CarryReads(c, a, b, lno);
        mtfbase[lno] := mtfbase[lno] - 1;
        assert mtfbase[..] == b[lno := b[lno] - 1];
        mtfa[mtfbase[lno]] := mtfa[mtfbase[lno - 1] + 15];
        assert mtfa[..] == a[b[lno] - 1 := a[b[lno - 1] + 15]];
        lno := lno - 1;
      }
    }

    /** Pack the segments against the top of the array again. */
    method Rebuild()
      requires Shaped()
      modifies mtfa, mtfbase
      ensures Valid() && List() == old(List())
    {
      ghost var segs, base := Segments(mtfa[..], mtfbase[..]), mtfbase[..];
      var kk := 4095;
      var ii := 15;
      PackStart(mtfa[..], base);
      while ii >= 0
        invariant -1 <= ii < 16 && kk == 3840 + 16 * ii + 15
        invariant Packing(mtfa[..], mtfbase[..], segs, base, ii)
      {
        ghost var b := mtfbase[..];
        kk := PackOne(ii, segs, base);
        mtfbase[ii] := kk + 1;
        assert mtfbase[..] == b[ii := 3840 + 16 * ii];
        ii := ii - 1;
      }
      PackEnd(mtfa[..], mtfbase[..], segs, base);
    }

    method PackOne(ii: int, ghost segs: seq<Text>, ghost base: seq<int>) returns (kk: int)
      requires 0 <= ii < 16 && Packing(mtfa[..], mtfbase[..], segs, base, ii)
      modifies mtfa
      ensures kk == 3840 + 16 * ii - 1
      ensures Packing(mtfa[..], mtfbase[..][ii := 3840 + 16 * ii], segs, base, ii - 1)
    {
      hide Packing;
      PackingIs(mtfa[..], mtfbase[..], segs, base, ii);
      ghost var a, from := mtfa[..], base[ii];
      kk := 3840 + 16 * ii + 15;
      var jj := 15;
      while jj >= 0
        invariant -1 <= jj < 16 && kk == 3840 + 16 * ii + jj
        invariant forall k :: kk < k < 3840 + 16 * ii + 16 ==> mtfa[k] == a[k - 3840 - 16 * ii + from]
        invariant forall k :: 0 <= k <= kk || 3840 + 16 * ii + 16 <= k < 4096 ==> mtfa[k] == a[k]
      {
        mtfa[kk] := mtfa[mtfbase[ii] + jj];
        kk := kk - 1;
        jj := jj - 1;
      }
      Packed(a, mtfa[..], mtfbase[..], segs, base, ii);
    }

    /** Take element off out of segment lno, leaving a gap at its start. */
    method TakeOut(lno: nat, off: nat, ghost c: Carry) returns (uc: Byte)
      requires Valid() && c.Valid() && c == Carry(Segments(mtfa[..], mtfbase[..]), mtfbase[..], lno, off)
      modifies mtfa, mtfbase
      ensures mtfa.Length == 4096 && mtfbase.Length == 16
      ensures uc == c.segs[lno][off] && c.At(mtfa[..], mtfbase[..], lno)
    {
      hide Moved, Flat, Carry.At;
      ghost var a := mtfa[..];
      ApartBounds(c.base, lno);
      var lo := mtfbase[lno];
      uc := mtfa[lo + off];
      assert c.segs[lno][off] == Seg(a, lo)[off];
      ShiftFar(lo, off);
      mtfbase[lno] := mtfbase[lno] + 1;
      assert mtfbase[..] == c.base[lno := c.base[lno] + 1];
      CarryStart(c, a, mtfa[..], mtfbase[..]);
    }

    lemma {:induction false} CarryOf(n: nat) returns (c: Carry)
      requires Valid() && 16 <= n < 256
      ensures c == Carry(Segments(mtfa[..], mtfbase[..]), mtfbase[..], n / 16, n % 16)
      ensures c.Valid() && Flat(c.segs) == List() && List()[n] == c.segs[n / 16][n % 16]
      ensures c.base[0] == mtfbase[0] > 0 && n == 16 * (n / 16) + n % 16
    {
      c := Carry(Segments(mtfa[..], mtfbase[..]), mtfbase[..], n / 16, n % 16);
    }

    lemma {:induction false} RoomLeft()
      requires Shaped() && mtfbase[0] != 0
      ensures Valid()
    {
    }

    /** "general case" */
    method FarToFront(n: nat) returns (uc: Byte)
      requires Valid() && 16 <= n < 256
      modifies mtfa, mtfbase
      ensures Valid() && uc == old(List())[n] && List() == ToFront(old(List()), n)
    {
      hide *;
      ghost var c := CarryOf(n);
      uc := TakeOut(n / 16, n % 16, c);
      CarryDown(n / 16, c);
      InsertFront(uc, c);
      if mtfbase[0] == 0 {
        Rebuild();
      } else {
        RoomLeft();
      }
    }

    method InsertFront(uc: Byte, ghost c: Carry)
      requires mtfa.Length == 4096 && mtfbase.Length == 16
      requires c.Valid() && c.At(mtfa[..], mtfbase[..], 0) && uc == c.segs[c.l][c.off] && c.base[0] > 0
      modifies mtfa, mtfbase
      ensures Shaped() && List() == ToFront(Flat(c.segs), 16 * c.l + c.off)
      ensures mtfbase[0] == c.base[0] - 1
    {
      ghost var a, b := mtfa[..], mtfbase[..];
      CarryEnd(c, a, b, uc);
      mtfbase[0] := mtfbase[0] - 1;
      assert mtfbase[..] == b[0 := b[0] - 1];
      mtfa[mtfbase[0]] := uc;
      assert mtfa[..] == a[b[0] - 1 := uc];
    }

    /** One MTF value: element n comes out and to the front. */
    method Decode(n: nat) returns (uc: Byte)
      requires Valid() && n < 256
      modifies mtfa, mtfbase
      ensures Valid() && uc == old(List())[n] && List() == ToFront(old(List()), n)
    {
      if n < 16 { uc := NearToFront(n); } else { uc := FarToFront(n); }
    }

    /** The byte that runs repeat. */
    method Front() returns (uc: Byte)
      requires Valid()
      ensures uc == List()[0]
    {
      ApartBounds(mtfbase[..], 0);
      FlatAt(Segments(mtfa[..], mtfbase[..]), 0, 0);
      uc := mtfa[mtfbase[0]];
    }
  }

  // ------------------------------------------------ the far move, step by step

  /** A far move of element off of segment l, from segments segs at base. */
  datatype Carry = Carry(segs: seq<Text>, base: seq<int>, l: nat, off: nat) {
    ghost predicate Valid() {
      Sixteens(segs) && Apart(base) && 0 < l < 16 && off < 16
    }

    /** Where segment i starts once the segments above m have been served. */
    function Start(m: nat, i: nat): int
      requires |base| == 16 && i < 16
    {
      if m < i < l then base[i] - 1 else if i == l == m then base[i] + 1 else base[i]
    }

    ghost predicate At(a: Text, b: seq<int>, m: nat)
      requires Valid()
    {
      && |a| == 4096 && |b| == 16 && m <= l
      && (forall i :: 0 <= i < 16 ==> b[i] == Start(m, i) && 0 <= b[i] <= (if i == l == m then 4081 else 4080))
      && (forall i :: 0 <= i < 16 && ((i <= m && i < l) || i > l) ==> Seg(a, b[i]) == segs[i])
      && (forall i :: 0 <= i < 16 && m < i <= l ==> Seg(a, b[i]) == Moved(segs, l, off, i))
      && (m == l ==> a[b[l]..b[l] + 15] == Moved(segs, l, off, l)[1..])
    }
  }

  lemma {:induction false} CarryRange(c: Carry)
    requires c.Valid()
    ensures c.l < 16
  {
  }

  lemma {:induction false} CarryReads(c: Carry, a: Text, b: seq<int>, m: nat)
    requires c.Valid() && c.At(a, b, m) && m > 0
    ensures |a| == 4096 && |b| == 16 && m < 16 && 0 <= b[m] - 1 < 4096 && 0 <= b[m - 1] + 15 < 4096
  {
    assert c.base[m - 1] + 16 * (m - (m - 1)) <= c.base[m];
  }

  /** The byte carried up turns segment m into what it is to be. */
  lemma {:induction false} CarryOver(c: Carry, a: Text, b: seq<int>, m: nat)
    requires c.Valid() && c.At(a, b, m) && m > 0
    ensures |a| == 4096 && |b| == 16 && m < 16 && 0 <= b[m] - 1 < 4081 && 0 <= b[m - 1] + 15 < 4096
    ensures Seg(a[b[m] - 1 := a[b[m - 1] + 15]], b[m] - 1) == Moved(c.segs, c.l, c.off, m)
  {
    hide Moved, Apart, Seg;
    CarryReads(c, a, b, m);
    CarryTail(c, a, b, m);
    MovedElement(c.segs, c.l, c.off, m, 0);
    LastByte(a, b[m - 1]);
    Prepend(a, b[m] - 1, a[b[m - 1] + 15], Moved(c.segs, c.l, c.off, m));
  }

  lemma {:induction false} LastByte(a: Text, lo: int)
    requires |a| == 4096 && 0 <= lo <= 4080
    ensures Seg(a, lo)[15] == a[lo + 15]
  {
  }

  lemma {:induction false} Prepend(a: Text, p: int, x: Byte, t: Text)
    requires |a| == 4096 && 0 <= p <= 4080 && |t| == 16 && x == t[0] && a[p + 1..p + 16] == t[1..]
    ensures Seg(a[p := x], p) == t
  {
    assert a[p := x][p..p + 16] == [x] + a[p + 1..p + 16];
    assert t == [t[0]] + t[1..];
  }

  /** Below its first byte segment m is already what it is to be. */
  lemma {:induction false} CarryTail(c: Carry, a: Text, b: seq<int>, m: nat)
    requires c.Valid() && c.At(a, b, m) && m > 0
    ensures |a| == 4096 && |b| == 16 && m < 16 && 0 <= b[m] <= 4081
    ensures a[b[m]..b[m] + 15] == Moved(c.segs, c.l, c.off, m)[1..]
  {
    if m < c.l {
      var s := Seg(a, b[m]);
      assert s == c.segs[m];
      assert a[b[m]..b[m] + 15] == s[..15];
      assert Moved(c.segs, c.l, c.off, m)[1..] == c.segs[m][..15];
    }
  }

  /** The other segments stay as they are. */
  lemma {:induction false} CarryBeside(c: Carry, a: Text, b: seq<int>, m: nat, i: nat)
    requires c.Valid() && c.At(a, b, m) && m > 0 && i < 16 && i != m
    ensures |a| == 4096 && |b| == 16 && m < 16 && 0 <= b[m] - 1 < 4096 && 0 <= b[m - 1] + 15 < 4096
    ensures 0 <= b[i] <= 4080 && Seg(a[b[m] - 1 := a[b[m - 1] + 15]], b[i]) == Seg(a, b[i])
  {
    hide Moved, Seg;
    CarryReads(c, a, b, m);
    var p, x := b[m] - 1, a[b[m - 1] + 15];
    Gap(c, i, m);
    if p == b[i] + 15 {
      assert i == m - 1;
      assert a[p := x] == a;
    } else {
      SegKept(a, p, x, b[i]);
    }
  }

  lemma {:induction false} CarryStep(c: Carry, a: Text, b: seq<int>, m: nat)
    requires c.Valid() && c.At(a, b, m) && m > 0
    ensures |a| == 4096 && |b| == 16 && 0 <= b[m] - 1 < 4096 && 0 <= b[m - 1] + 15 < 4096
    ensures c.At(a[b[m] - 1 := a[b[m - 1] + 15]], b[m := b[m] - 1], m - 1)
  {
    hide Moved, Seg, Apart;
    CarryReads(c, a, b, m);
    CarryOver(c, a, b, m);
    forall i | 0 <= i < 16 && i != m
      ensures 0 <= b[i] <= 4080 && Seg(a[b[m] - 1 := a[b[m - 1] + 15]], b[i]) == Seg(a, b[i])
    {
      CarryBeside(c, a, b, m, i);
    }
  }

  /** A write for segment m misses segment i, or rewrites its last byte. */
  lemma {:induction false} Gap(c: Carry, i: nat, m: nat)
    requires c.Valid() && i < 16 && 0 < m <= c.l && i != m
    ensures var p := c.Start(m, m) - 1;
      p < c.Start(m, i) || p >= c.Start(m, i) + 16 || (i == m - 1 && p == c.Start(m, i) + 15)
  {
    if i < m {
      assert c.base[i] + 16 * (m - i) <= c.base[m];
    } else {
      assert c.base[m] + 16 * (i - m) <= c.base[i];
    }
  }

  /** Shifting inside the first segment is a move of its element n. */
  lemma {:induction false} NearMoved(a: Text, a': Text, base: seq<int>, n: nat)
    requires |a| == |a'| == 4096 && Apart(base) && n < 16
    requires base[0] + n < 4096 && a'[base[0]] == a[base[0] + n]
    requires forall k :: base[0] < k <= base[0] + n ==> a'[k] == a[k - 1]
    requires forall k :: 0 <= k < 4096 && !(base[0] <= k <= base[0] + n) ==> a'[k] == a[k]
    ensures Flat(Segments(a', base)) == ToFront(Flat(Segments(a, base)), n)
  {
    var segs, segs' := Segments(a, base), Segments(a', base);
    forall i | 0 <= i < 16 ensures segs'[i] == Moved(segs, 0, n, i) {
      ApartBounds(base, i);
      assert base[0] + 16 * (i - 0) <= base[i];
      if i == 0 {
        forall j | 0 <= j < 16 ensures segs'[0][j] == Moved(segs, 0, n, 0)[j] {
          assert segs'[0][j] == a'[base[0] + j] && segs[0][n] == a[base[0] + n];
          assert j > 0 ==> segs[0][j - 1] == a[base[0] + j - 1];
        }
      } else {
        assert forall j :: 0 <= j < 16 ==> segs'[i][j] == a'[base[i] + j];
      }
    }
    FlatMoved(segs, segs', 0, n);
  }

  /** A segment away from the bytes that were shifted. */
  lemma {:induction false} CarryElsewhere(c: Carry, a: Text, a': Text, i: nat)
    requires |a| == |a'| == 4096 && c.Valid() && i < 16 && i != c.l
    requires forall k :: 0 <= k < 4096 && !(c.base[c.l] < k <= c.base[c.l] + c.off) ==> a'[k] == a[k]
    ensures 0 <= c.base[i] <= 4080 && Seg(a', c.base[i]) == Seg(a, c.base[i])
  {
    ApartBounds(c.base, i);
    if i < c.l {
      assert c.base[i] + 16 * (c.l - i) <= c.base[c.l];
    } else {
      assert c.base[c.l] + 16 * (i - c.l) <= c.base[i];
    }
  }

  /** The shifted segment, but for its first element, is the segment moved. */
  lemma {:induction false} CarryOwn(c: Carry, a: Text, a': Text)
    requires |a| == |a'| == 4096 && c.Valid() && c.segs == Segments(a, c.base)
    requires forall k :: c.base[c.l] < k <= c.base[c.l] + c.off ==> a'[k] == a[k - 1]
    requires forall k :: 0 <= k < 4096 && !(c.base[c.l] < k <= c.base[c.l] + c.off) ==> a'[k] == a[k]
    ensures |c.base| == 16 && |c.segs| == 16 && 0 <= c.base[c.l] <= 4080
    ensures a'[c.base[c.l] + 1..c.base[c.l] + 16] == Moved(c.segs, c.l, c.off, c.l)[1..]
  {
    hide Moved, Apart;
    var l := c.l;
    ApartBounds(c.base, l);
    var s, t := a'[c.base[l] + 1..c.base[l] + 16], Moved(c.segs, l, c.off, l)[1..];
    forall j | 0 <= j < 15 ensures s[j] == t[j] {
      MovedElement(c.segs, l, c.off, l, j + 1);
      assert s[j] == a'[c.base[l] + 1 + j];
      assert t[j] == if j < c.off then c.segs[l][j] else c.segs[l][j + 1];
    }
  }

  lemma {:induction false} CarryStart(c: Carry, a: Text, a': Text, b': seq<int>)
    requires |a| == |a'| == 4096 && c.Valid() && c.segs == Segments(a, c.base)
    requires |b'| == 16 && b' == c.base[c.l := c.base[c.l] + 1]
    requires c.base[c.l] + c.off < 4096
    requires forall k :: c.base[c.l] < k <= c.base[c.l] + c.off ==> a'[k] == a[k - 1]
    requires forall k :: 0 <= k < 4096 && !(c.base[c.l] < k <= c.base[c.l] + c.off) ==> a'[k] == a[k]
    ensures c.At(a', b', c.l)
  {
    hide Seg, Moved, Apart;
    CarryOwn(c, a, a');
    forall i | 0 <= i < 16 && i != c.l ensures 0 <= c.base[i] <= 4080 && Seg(a', c.base[i]) == c.segs[i] {
      CarryElsewhere(c, a, a', i);
    }
  }

  lemma {:induction false} CarryEnd(c: Carry, a: Text, b: seq<int>, uc: Byte)
    requires c.Valid() && c.At(a, b, 0) && uc == c.segs[c.l][c.off] && c.base[0] > 0
    ensures |a| == 4096 && |b| == 16 && b[0] == c.base[0] && 0 <= b[0] - 1 < 4096 && Apart(b[0 := b[0] - 1])
    ensures Flat(Segments(a[b[0] - 1 := uc], b[0 := b[0] - 1])) == ToFront(Flat(c.segs), 16 * c.l + c.off)
  {
    hide Moved, Apart, Seg, Flat, ToFront;
    EndApart(c, a, b);
    var a', b' := a[b[0] - 1 := uc], b[0 := b[0] - 1];
    var segs' := Segments(a', b');
    forall i | 0 <= i < 16 ensures segs'[i] == Moved(c.segs, c.l, c.off, i) {
      if i == 0 { EndFirst(c, a, b, uc); } else { EndOther(c, a, b, uc, i); }
    }
    FlatMoved(c.segs, segs', c.l, c.off);
  }

  lemma {:induction false} EndApart(c: Carry, a: Text, b: seq<int>)
    requires c.Valid() && c.At(a, b, 0) && c.base[0] > 0
    ensures |a| == 4096 && |b| == 16 && b[0] == c.base[0] <= 3840 && Apart(b[0 := b[0] - 1])
  {
    var b' := b[0 := b[0] - 1];
    ApartBounds(c.base, 0);
    forall i, j | 0 <= i <= j < 16 ensures b'[i] + 16 * (j - i) <= b'[j] {
      assert c.base[i] + 16 * (j - i) <= c.base[j];
    }
  }

  lemma {:induction false} EndFirst(c: Carry, a: Text, b: seq<int>, uc: Byte)
    requires c.Valid() && c.At(a, b, 0) && uc == c.segs[c.l][c.off] && 0 < c.base[0] == b[0] <= 4080
    ensures Seg(a[b[0] - 1 := uc], b[0] - 1) == Moved(c.segs, c.l, c.off, 0)
  {
    assert Seg(a, b[0])[..15] == c.segs[0][..15];
    assert a[b[0]..b[0] + 15] == Seg(a, b[0])[..15];
    assert Moved(c.segs, c.l, c.off, 0)[1..] == c.segs[0][..15];
    hide Moved, Apart, Seg;
    MovedElement(c.segs, c.l, c.off, 0, 0);
    Prepend(a, b[0] - 1, uc, Moved(c.segs, c.l, c.off, 0));
  }

  lemma {:induction false} EndOther(c: Carry, a: Text, b: seq<int>, uc: Byte, i: nat)
    requires c.Valid() && c.At(a, b, 0) && 0 < c.base[0] == b[0] <= 4080 && 1 <= i < 16
    ensures 0 <= b[i] <= 4080 && Seg(a[b[0] - 1 := uc], b[i]) == Moved(c.segs, c.l, c.off, i)
  {
    hide Seg;
    assert c.base[0] + 16 * (i - 0) <= c.base[i];
    SegKept(a, b[0] - 1, uc, b[i]);
  }

  // -------------------------------------------------------------- the rebuild

  /** Segments above ii have been packed; the others are where they were. */
  ghost predicate Packing(a: Text, b: seq<int>, segs: seq<Text>, base: seq<int>, ii: int) {
    && |a| == 4096 && |b| == 16 && Sixteens(segs) && Apart(base) && -1 <= ii < 16
    && (forall i :: ii < i < 16 ==> b[i] == 3840 + 16 * i && Seg(a, b[i]) == segs[i])
    && (forall i :: 0 <= i <= ii ==> b[i] == base[i] && 0 <= b[i] <= 4080 && Seg(a, b[i]) == segs[i])
  }

  lemma {:induction false} PackingIs(a: Text, b: seq<int>, segs: seq<Text>, base: seq<int>, ii: nat)
    requires ii < 16 && Packing(a, b, segs, base, ii)
    ensures |a| == 4096 && |b| == 16 && |base| == 16 && b[ii] == base[ii] && 16 * ii <= base[ii] <= 3840 + 16 * ii
  {
    ApartBounds(base, ii);
  }

  lemma {:induction false} PackStart(a: Text, base: seq<int>)
    requires |a| == 4096 && Apart(base)
    ensures Packing(a, base, Segments(a, base), base, 15)
  {
    forall i | 0 <= i < 16 ensures 0 <= base[i] <= 4080 {
      ApartBounds(base, i);
    }
  }

  lemma {:induction false} Packed(a: Text, a': Text, b: seq<int>, segs: seq<Text>, base: seq<int>, ii: int)
    requires 0 <= ii < 16 && Packing(a, b, segs, base, ii) && |a'| == 4096
    requires forall k :: 3840 + 16 * ii <= k < 3840 + 16 * ii + 16 ==>
      0 <= k - 3840 - 16 * ii + base[ii] < 4096 && a'[k] == a[k - 3840 - 16 * ii + base[ii]]
    requires forall k :: 0 <= k < 3840 + 16 * ii || 3840 + 16 * ii + 16 <= k < 4096 ==> a'[k] == a[k]
    ensures Packing(a', b[ii := 3840 + 16 * ii], segs, base, ii - 1)
  {
    var b' := b[ii := 3840 + 16 * ii];
    ApartBounds(base, ii);
    forall j | 0 <= j < 16 ensures Seg(a', b'[ii])[j] == Seg(a, b[ii])[j] {
      assert Seg(a', b'[ii])[j] == a'[3840 + 16 * ii + j];
    }
    assert Seg(a', b'[ii]) == segs[ii];
    forall i | 0 <= i < 16 && i != ii ensures Seg(a', b'[i]) == Seg(a, b[i]) {
      if i < ii {
        assert base[i] + 16 * (ii - i) <= base[ii];
      }
    }
  }

  lemma {:induction false} PackEnd(a: Text, b: seq<int>, segs: seq<Text>, base: seq<int>)
    requires Packing(a, b, segs, base, -1)
    ensures Apart(b) && b[0] > 0 && Segments(a, b) == segs
  {
  }
}
