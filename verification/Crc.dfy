/** The CRC of bzip2: a table, a shift and two exclusive-ors for each byte, which come to
    the division of the bits of a text by a polynomial, one bit after another. */
module Crc {
  import opened Bits
  import opened BwtSpec
  import opened BitString
  import opened BitStream

  // ---------------------------------------------------------------- the division

  /** x^32 + x^26 + x^23 + x^22 + x^16 + x^12 + x^11 + x^10 + x^8 + x^7 + x^5 + x^4 +
      x^2 + x + 1 without its first term. */
  const POLY: nat := 0x04c1_1db7

  /** A remainder of thirty-two bits, the highest first. */
  type Rem = b: seq<Bit> | |b| == 32 witness BitsOf(0, 32)

  function XorBits(a: seq<Bit>, b: seq<Bit>): (c: seq<Bit>)
    requires |a| == |b|
    ensures |c| == |a| && forall i :: 0 <= i < |a| ==> c[i] == if a[i] != b[i] then 1 else 0
  {
    if a == [] then [] else [if a[0] != b[0] then 1 else 0] + XorBits(a[1..], b[1..])
  }

  /** One step of a long division: a bit is brought in against the one that leaves on the
      left, and if they differ the divisor is taken off. */
  function Bring(r: Rem, b: Bit): Rem {
    if r[0] != b then XorBits(r[1..] + [0], BitsOf(POLY, 32)) else r[1..] + [0]
  }

  /** The remainder after more bits. */
  function Divide(r: Rem, bits: seq<Bit>): Rem
    decreases |bits|
  {
    if bits == [] then r else Divide(Bring(r, bits[0]), bits[1..])
  }

  lemma {:induction false} DivideMore(r: Rem, a: seq<Bit>, b: seq<Bit>)
    ensures Divide(r, a + b) == Divide(Divide(r, a), b)
    decreases |a|
  {
    hide Bring;
    if a == [] {
      assert a + b == b;
    } else {
      DivideMore(Bring(r, a[0]), a[1..], b);
      assert (a + b)[1..] == a[1..] + b;
    }
  }

  // ------------------------------------------------ what differs has another remainder

  lemma {:induction false} PolyEnds()
    ensures BitsOf(POLY, 32)[31] == 1
  {
  }

  /** From the remainders after one step what was taken off can be told, and all but the
      first bit of those before. */
  lemma {:induction false} BringBack(r: Rem, x: Bit, s: Rem, y: Bit, n: nat)
    requires n <= 31 && Bring(r, x)[n..] == Bring(s, y)[n..]
    ensures (r[0] != x) == (s[0] != y) && r[n + 1..] == s[n + 1..]
  {
    hide BitsOf, POLY, Bring;
    PolyEnds();
    var r', s' := Bring(r, x), Bring(s, y);
    assert r'[n..][31 - n] == s'[n..][31 - n];
    BringAt(r, x, 31);
    BringAt(s, y, 31);
    forall i | n < i < 32 ensures r[i] == s[i] {
      assert r'[n..][i - 1 - n] == s'[n..][i - 1 - n];
      BringAt(r, x, i - 1);
      BringAt(s, y, i - 1);
    }
  }

  /** Up to thirty-two bits later the remainders still tell them apart. */
  lemma {:induction false} DivideBack(r: Rem, a: seq<Bit>, s: Rem, b: seq<Bit>)
    requires |a| == |b| <= 32 && Divide(r, a) == Divide(s, b)
    ensures r[|a|..] == s[|a|..] && (r == s ==> a == b)
    decreases |a|
  {
    hide Bring;
    if a != [] {
      DivideBack(Bring(r, a[0]), a[1..], Bring(s, b[0]), b[1..]);
      BringBack(r, a[0], s, b[0], |a| - 1);
    }
  }

  /** Nor do different remainders ever become the same. */
  lemma {:induction false} DivideApart(r: Rem, s: Rem, bits: seq<Bit>)
    requires Divide(r, bits) == Divide(s, bits)
    ensures r == s
    decreases |bits|
  {
    hide Bring;
    if bits != [] {
      DivideApart(Bring(r, bits[0]), Bring(s, bits[0]), bits[1..]);
      BringBack(r, bits[0], s, bits[0], 0);
      assert r == [r[0]] + r[1..] && s == [s[0]] + s[1..];
    }
  }

  /** Two strings that differ in up to thirty-two bits in a row have different
      remainders. */
  lemma {:induction false} BurstFound(r: Rem, before: seq<Bit>, a: seq<Bit>, b: seq<Bit>, after: seq<Bit>)
    requires |a| == |b| <= 32 && a != b
    ensures Divide(r, before + a + after) != Divide(r, before + b + after)
  {
    var s := Divide(r, before);
    DivideMore(r, before + a, after);
    DivideMore(r, before + b, after);
    DivideMore(r, before, a);
    DivideMore(r, before, b);
    if Divide(Divide(s, a), after) == Divide(Divide(s, b), after) {
      DivideApart(Divide(s, a), Divide(s, b), after);
      DivideBack(s, a, s, b);
    }
  }

  // ------------------------------------------------------------------- by bytes

  /** One bit of an entry of the table: a shift, and the polynomial taken off if a one
      has left. */
  function ShiftXor(x: Word): Word {
    Pow2Values();
    if x >= 0x8000_0000 then XorBound(x * 2 - 0x1_0000_0000, POLY, 32); Xor(x * 2 - 0x1_0000_0000, POLY)
    else x * 2
  }

  function ShiftXors(x: Word, n: nat): Word
    decreases n
  {
    if n == 0 then x else ShiftXors(ShiftXor(x), n - 1)
  }

  predicate IsCrcTable(t: seq<Word>) {
    |t| == 256 && forall i :: 0 <= i < 256 ==> t[i] == ShiftXors(i * 0x100_0000, 8)
  }

  /** BZ2_crc32Table */
  type CrcTable = t: seq<Word> | IsCrcTable(t)
    witness seq(256, i requires 0 <= i < 256 => ShiftXors(i * 0x100_0000, 8))

  /** BZ_UPDATE_CRC */
  function UpdateCrc(table: CrcTable, crc: Word, c: Byte): Word {
    Pow2Values();
    XorBound(crc / 0x100_0000, c, 8);
    var entry := table[Xor(crc / 0x100_0000, c)];
    var shifted: nat := crc as int * 0x100 % 0x1_0000_0000;
    XorBound(shifted, entry, 32);
    Xor(shifted, entry)
  }

  /** The CRC after the bytes of s. */
  function CrcOf(table: CrcTable, crc: Word, s: Text): Word {
    if s == [] then crc else UpdateCrc(table, CrcOf(table, crc, s[..|s| - 1]), s[|s| - 1])
  }

  lemma {:induction false} CrcNext(table: CrcTable, crc: Word, s: Text, c: Byte)
    ensures CrcOf(table, crc, s + [c]) == UpdateCrc(table, CrcOf(table, crc, s), c)
  {
    hide UpdateCrc;
    assert (s + [c])[..|s|] == s;
  }

  lemma {:induction false} CrcAppend(table: CrcTable, crc: Word, s: Text, t: Text)
    ensures CrcOf(table, crc, s + t) == CrcOf(table, CrcOf(table, crc, s), t)
  {
    hide UpdateCrc;
    if t == [] {
      assert s + t == s;
    } else {
      var n := |t| - 1;
      CrcAppend(table, crc, s, t[..n]);
      assert t == t[..n] + [t[n]] && s + t == s + t[..n] + [t[n]];
      CrcNext(table, crc, s + t[..n], t[n]);
      CrcNext(table, CrcOf(table, crc, s), t[..n], t[n]);
    }
  }

  // ------------------------------------------------------ bits and their numbers

  function Zeros(n: nat): (z: seq<Bit>)
    ensures |z| == n && forall i :: 0 <= i < n ==> z[i] == 0
  {
    seq(n, _ => 0)
  }

  lemma {:induction false} BitsOfZero(n: nat)
    ensures BitsOf(0, n) == Zeros(n)
  {
    if n > 0 {
      BitsOfZero(n - 1);
      assert Zeros(n) == Zeros(n - 1) + [0];
    }
  }

  lemma {:induction false} XorBitsMore(a: seq<Bit>, x: Bit, b: seq<Bit>, y: Bit)
    requires |a| == |b|
    ensures XorBits(a + [x], b + [y]) == XorBits(a, b) + [if x != y then 1 else 0]
  {
  }

  lemma {:induction false} XorBitsWithZeros(a: seq<Bit>)
    ensures XorBits(a, Zeros(|a|)) == a == XorBits(Zeros(|a|), a)
  {
  }

  lemma {:induction false} XorHalves(a: nat, b: nat)
    ensures Xor(a, b) / 2 == Xor(a / 2, b / 2) && Xor(a, b) % 2 == if a % 2 != b % 2 then 1 else 0
  {
  }

  /** `^` works on the bits. */
  lemma {:induction false} BitsOfXor(a: nat, b: nat, n: nat)
    ensures BitsOf(Xor(a, b), n) == XorBits(BitsOf(a, n), BitsOf(b, n))
    decreases n
  {
    hide XorBits, Xor;
    if n == 0 {
      XorBitsWithZeros([]);
      assert Zeros(0) == [];
    } else {
      XorHalves(a, b);
      BitsOfXor(a / 2, b / 2, n - 1);
      XorBitsMore(BitsOf(a / 2, n - 1), a % 2, BitsOf(b / 2, n - 1), b % 2);
    }
  }

  /** k bits shifted in on the right, and as many out on the left. */
  lemma {:induction false} BitsShifted(x: nat, n: nat, k: nat)
    ensures BitsOf(x * Pow2(k), n + k) == BitsOf(x, n) + Zeros(k)
  {
    hide BitsOf, Shr;
    BitsSplit(x * Pow2(k), n, k);
    Pow2Mono(0, k);
    ShiftedParts(x, 0, k);
    BitsOfZero(k);
  }

  /** A word cut in two. */
  lemma {:induction false} BitsCut(q: nat, r: nat, n: nat, k: nat)
    requires r < Pow2(k)
    ensures BitsOf(q * Pow2(k) + r, n + k) == BitsOf(q, n) + BitsOf(q * Pow2(k) + r, k)
  {
    hide BitsOf, Shr, Pow2;
    BitsSplit(q * Pow2(k) + r, n, k);
    ShiftedParts(q, r, k);
  }

  lemma {:induction false} TopBit(x: Word)
    ensures BitsOf(x, 32)[0] == x / 0x8000_0000
    ensures BitsOf(x, 32)[1..] == BitsOf(x, 31)
  {
    hide BitsOf, Pow2;
    assert Pow2(31) == 0x8000_0000 by { Pow2Add(16, 15); SmallPow2s(); }
    var q: nat, r: nat := x / 0x8000_0000, x % 0x8000_0000;
    BitsCut(q, r, 1, 31);
    assert q * 0x8000_0000 + r == x;
    assert BitsOf(x / 0x8000_0000, 1) == [x / 0x8000_0000] by { OneBit(x / 0x8000_0000); }
  }

  lemma {:induction false} SmallPow2s()
    ensures Pow2(16) == 0x1_0000 && Pow2(15) == 0x8000
  {
    Pow2Values();
  }

  lemma {:induction false} OneBit(b: Bit)
    ensures BitsOf(b, 1) == [b]
  {
    assert BitsOf(b / 2, 0) == [];
  }

  // ---------------------------------------------------------- the table is right

  lemma {:induction false} ShiftXorBits(x: Word)
    ensures BitsOf(ShiftXor(x), 32) == Bring(BitsOf(x, 32), 0)
  {
    hide BitsOf, Xor, XorBits, POLY, Pow2;
    TopBit(x);
    Pow2Values();
    var shifted := x * 2 % 0x1_0000_0000;
    assert BitsOf(shifted, 32) == BitsOf(x, 31) + [0] by {
      BitsMod(x * 2, 32, 32);
      BitsShifted(x, 31, 1);
      assert Zeros(1) == [0];
    }
    if x >= 0x8000_0000 { BitsOfXor(shifted, POLY, 32); }
  }

  lemma {:induction false} ShiftXorsBits(x: Word, n: nat)
    ensures BitsOf(ShiftXors(x, n), 32) == Divide(BitsOf(x, 32), Zeros(n))
    decreases n
  {
    hide BitsOf, ShiftXor, Bring;
    if n > 0 {
      ShiftXorBits(x);
      ShiftXorsBits(ShiftXor(x), n - 1);
      assert Zeros(n)[1..] == Zeros(n - 1);
    }
  }

  // -------------------------------------------------------- division is linear

  lemma {:induction false} BringXor(r: Rem, x: Bit, s: Rem, y: Bit)
    ensures Bring(XorBits(r, s), if x != y then 1 else 0) == XorBits(Bring(r, x), Bring(s, y))
  {
    hide BitsOf, POLY;
    var both, z: Bit := XorBits(r, s), if x != y then 1 else 0;
    forall i | 0 <= i < 32 ensures Bring(both, z)[i] == XorBits(Bring(r, x), Bring(s, y))[i] {
      BringAt(both, z, i);
      BringAt(r, x, i);
      BringAt(s, y, i);
    }
  }

  lemma {:induction false} BringAt(r: Rem, b: Bit, i: nat)
    requires i < 32
    ensures Bring(r, b)[i] == var next: Bit := if i < 31 then r[i + 1] else 0;
      if r[0] != b && BitsOf(POLY, 32)[i] == 1 then 1 - next else next
  {
    hide BitsOf, POLY;
    assert (r[1..] + [0])[i] == if i < 31 then r[i + 1] else 0;
  }

  lemma {:induction false} DivideXor(r: Rem, a: seq<Bit>, s: Rem, b: seq<Bit>)
    requires |a| == |b|
    ensures Divide(XorBits(r, s), XorBits(a, b)) == XorBits(Divide(r, a), Divide(s, b))
    decreases |a|
  {
    hide Bring;
    if a != [] {
      BringXor(r, a[0], s, b[0]);
      DivideXor(Bring(r, a[0]), a[1..], Bring(s, b[0]), b[1..]);
    }
  }

  /** Bits that equal those that leave only shift the remainder. */
  lemma {:induction false} DivideOwn(r: Rem, k: nat)
    requires k <= 32
    ensures Divide(r, r[..k]) == r[k..] + Zeros(k)
    decreases k
  {
    hide BitsOf, POLY, XorBits;
    if k > 0 {
      var r' := Bring(r, r[0]);
      assert r' == r[1..] + [0];
      DivideOwn(r', k - 1);
      assert r'[..k - 1] == r[..k][1..];
      assert r'[k - 1..] + Zeros(k - 1) == r[k..] + Zeros(k);
    } else {
      assert r[0..] + Zeros(0) == r;
    }
  }

  // ------------------------------------------------------------- bytes and bits

  lemma {:induction false} EntryBits(table: CrcTable, i: Byte)
    ensures |table| == 256 && BitsOf(table[i], 32) == Divide(BitsOf(i, 8) + Zeros(24), Zeros(8))
  {
    hide BitsOf, Divide, ShiftXors, Pow2;
    Pow2Values();
    ShiftXorsBits(i * 0x100_0000, 8);
    BitsShifted(i, 8, 24);
  }

  lemma {:induction false} ShiftedBits(crc: Word)
    ensures BitsOf(crc * 0x100 % 0x1_0000_0000, 32) == BitsOf(crc, 24) + Zeros(8)
  {
    hide BitsOf, Pow2;
    Pow2Values();
    BitsMod(crc * 0x100, 32, 32);
    BitsShifted(crc, 24, 8);
  }

  lemma {:induction false} UpdateBits(table: CrcTable, crc: Word, c: Byte)
    ensures BitsOf(UpdateCrc(table, crc, c), 32) == XorBits(BitsOf(crc, 24) + Zeros(8),
      Divide(XorBits(BitsOf(crc / 0x100_0000, 8), BitsOf(c, 8)) + Zeros(24), Zeros(8)))
  {
    hide BitsOf, Divide, ShiftXors, Pow2, XorBits, IsCrcTable, Xor;
    Pow2Values();
    XorBound(crc / 0x100_0000, c, 8);
    var i := Xor(crc / 0x100_0000, c);
    BitsOfXor(crc / 0x100_0000, c, 8);
    EntryBits(table, i);
    ShiftedBits(crc);
    BitsOfXor(crc * 0x100 % 0x1_0000_0000, table[i], 32);
  }

  /** The remainder and the byte as the index of the table on one side, and a remainder
      that starts with the byte on the other. */
  lemma {:induction false} SplitInTwo(high: seq<Bit>, low: seq<Bit>, bits: seq<Bit>)
    requires |high| == |bits| == 8 && |low| == 24
    ensures XorBits(XorBits(high, bits) + Zeros(24), bits + low) == high + low
    ensures XorBits(Zeros(8), bits) == bits
  {
    XorBitsWithZeros(bits);
  }

  lemma {:induction false} XorBitsTurned(a: seq<Bit>, b: seq<Bit>)
    requires |a| == |b|
    ensures XorBits(a, b) == XorBits(b, a)
  {
  }

  /** One byte by the table is eight bits of the division. */
  lemma {:induction false} UpdateIsDivide(table: CrcTable, crc: Word, c: Byte)
    ensures BitsOf(UpdateCrc(table, crc, c), 32) == Divide(BitsOf(crc, 32), BitsOf(c, 8))
  {
    hide BitsOf, Divide, Pow2, XorBits, UpdateCrc;
    Pow2Values();
    var high, low, bits := BitsOf(crc / 0x100_0000, 8), BitsOf(crc, 24), BitsOf(c, 8);
    var index := XorBits(high, bits) + Zeros(24);
    UpdateBits(table, crc, c);
    BitsCut(crc / 0x100_0000, crc % 0x100_0000, 8, 24);
    assert crc / 0x100_0000 * 0x100_0000 + crc % 0x100_0000 == crc;
    SplitInTwo(high, low, bits);
    DivideXor(index, Zeros(8), bits + low, bits);
    DivideOwn(bits + low, 8);
    assert (bits + low)[..8] == bits && (bits + low)[8..] == low;
    XorBitsTurned(low + Zeros(8), Divide(index, Zeros(8)));
  }

  /** The CRC by the table is the remainder of the whole text. */
  lemma {:induction false} CrcIsDivide(table: CrcTable, crc: Word, s: Text)
    ensures BitsOf(CrcOf(table, crc, s), 32) == Divide(BitsOf(crc, 32), BitsOfText(s))
  {
    hide BitsOf, UpdateCrc;
    if s != [] {
      var n := |s| - 1;
      var most, c := s[..n], s[n];
      assert s == most + [c];
      CrcIsDivide(table, crc, most);
      UpdateIsDivide(table, CrcOf(table, crc, most), c);
      BitsOfTextAppend(most, [c]);
      assert BitsOfText([c]) == BitsOf(c, 8) by { assert [c][1..] == []; }
      DivideMore(BitsOf(crc, 32), BitsOfText(most), BitsOf(c, 8));
    }
  }

  /** Texts that differ in up to four bytes in a row have different CRCs. */
  lemma {:induction false} CrcFinds(table: CrcTable, crc: Word, before: Text, a: Text, b: Text, after: Text)
    requires |a| == |b| <= 4 && a != b
    ensures CrcOf(table, crc, before + a + after) != CrcOf(table, crc, before + b + after)
  {
    hide BitsOf, Divide, CrcOf;
    CrcIsDivide(table, crc, before + a + after);
    CrcIsDivide(table, crc, before + b + after);
    InThree(before, a, after);
    InThree(before, b, after);
    if BitsOfText(a) == BitsOfText(b) { SameText(a, b); }
    TextLength(a);
    TextLength(b);
    BurstFound(BitsOf(crc, 32), BitsOfText(before), BitsOfText(a), BitsOfText(b), BitsOfText(after));
  }

  lemma {:induction false} InThree(a: Text, b: Text, c: Text)
    ensures BitsOfText(a + b + c) == BitsOfText(a) + BitsOfText(b) + BitsOfText(c)
  {
    BitsOfTextAppend(a + b, c);
    BitsOfTextAppend(a, b);
  }

  lemma {:induction false} TextLength(s: Text)
    ensures |BitsOfText(s)| == 8 * |s|
  {
    if s != [] { TextLength(s[1..]); }
  }

  lemma {:induction false} SameText(a: Text, b: Text)
    requires |a| == |b| && BitsOfText(a) == BitsOfText(b)
    ensures a == b
  {
    hide BitsOf;
    if a != [] {
      var x, y := BitsOfText(a), BitsOfText(b);
      assert x[..8] == BitsOf(a[0], 8) && y[..8] == BitsOf(b[0], 8);
      assert x[8..] == BitsOfText(a[1..]) && y[8..] == BitsOfText(b[1..]);
      Pow2Values();
      ValueOfBits(a[0], 8);
      ValueOfBits(b[0], 8);
      SameText(a[1..], b[1..]);
    }
  }

  // ---------------------------------------------------- the CRCs that are stored

  function Flip(b: seq<Bit>): (f: seq<Bit>)
    ensures |f| == |b| && forall i :: 0 <= i < |b| ==> f[i] == 1 - b[i]
  {
    seq(|b|, i requires 0 <= i < |b| => 1 - b[i])
  }

  /** The CRC of a block of data: the flipped remainder of its bits, started from all
      ones. */
  function BlockCrcOf(data: Text): Word {
    Pow2Values();
    ValueOf(Flip(Divide(seq(32, _ => 1), BitsOfText(data))))
  }

  /** The combined CRC with one more block's: a bit's turn to the left, then the other
      joined to it. */
  function Combine(c: Word, crc: Word): Word {
    Pow2Values();
    var b := BitsOf(c, 32);
    ValueOf(XorBits(b[1..] + [b[0]], BitsOf(crc, 32)))
  }

  lemma {:induction false} FlippedBits(c: nat, n: nat)
    requires c < Pow2(n)
    ensures BitsOf(Pow2(n) - 1 - c, n) == Flip(BitsOf(c, n))
    decreases n
  {
    if n > 0 {
      FlippedBits(c / 2, n - 1);
      assert (Pow2(n) - 1 - c) / 2 == Pow2(n - 1) - 1 - c / 2;
    }
  }

  lemma {:induction false} OnesBits()
    ensures BitsOf(0xffff_ffff, 32) == seq(32, _ => 1)
  {
    hide BitsOf, Pow2;
    Pow2Values();
    FlippedBits(0, 32);
    BitsOfZero(32);
  }

  /** BZ_FINALISE_CRC after the bytes of a block. */
  lemma {:induction false} BlockCrcIs(table: CrcTable, data: Text)
    ensures 0xffff_ffff - CrcOf(table, 0xffff_ffff, data) == BlockCrcOf(data)
  {
    hide BitsOf, Divide, CrcOf, Pow2, Flip;
    Pow2Values();
    var crc := CrcOf(table, 0xffff_ffff, data);
    CrcIsDivide(table, 0xffff_ffff, data);
    OnesBits();
    FlippedBits(crc, 32);
    ValueOfBits(0xffff_ffff - crc, 32);
  }

  /** `(c << 1) | (c >> 31)` turns the bits. */
  lemma {:induction false} TurnedBits(c: Word)
    ensures Or(c * 2 % 0x1_0000_0000, c / 0x8000_0000) < 0x1_0000_0000
    ensures BitsOf(Or(c * 2 % 0x1_0000_0000, c / 0x8000_0000), 32) == BitsOf(c, 32)[1..] + [BitsOf(c, 32)[0]]
  {
    hide BitsOf, Pow2;
    TopBit(c);
    var low: nat, b: Bit := c * 2 % 0x1_0000_0000 / 2, c / 0x8000_0000;
    OrLowest(low, b);
    assert low * 2 == c * 2 % 0x1_0000_0000;
    LastBit(low * 2 + b, 31);
    assert BitsOf(low, 31) == BitsOf(c, 31) by {
      assert Pow2(31) == 0x8000_0000 by { Pow2Add(16, 15); SmallPow2s(); }
      assert low == c % 0x8000_0000;
      BitsMod(c, 31, 31);
    }
  }

  lemma {:induction false} OrLowest(x: nat, b: Bit)
    ensures Or(x * 2, b) == x * 2 + b
  {
    assert Or(x, 0) == x;
  }

  lemma {:induction false} LastBit(v: nat, n: nat)
    ensures BitsOf(v, n + 1) == BitsOf(v / 2, n) + [v % 2]
  {
  }

  lemma {:induction false} CombineIs(c: Word, crc: Word)
    ensures Or(c * 2 % 0x1_0000_0000, c / 0x8000_0000) < 0x1_0000_0000
    ensures Xor(Or(c * 2 % 0x1_0000_0000, c / 0x8000_0000), crc) == Combine(c, crc)
  {
    hide BitsOf, Pow2, Or, Xor, XorBits;
    Pow2Values();
    TurnedBits(c);
    var turned := Or(c * 2 % 0x1_0000_0000, c / 0x8000_0000);
    BitsOfXor(turned, crc, 32);
    XorBound(turned, crc, 32);
    ValueOfBits(Xor(turned, crc), 32);
  }
}
