/** The file system's maps of blocks and inodes in use, one bit each, beside the
    bits freed since the last flush, which are not given out again before it. */
module CrfsFreemap {
  import opened Bits

  predicate Bit(a: nat, k: nat) {
    a / Pow2(k) % 2 == 1
  }

  // -------------------------------------------------------- one byte of a map

  lemma {:induction false} BitHalf(a: nat, k: nat)
    requires k > 0
    ensures Bit(a, k) <==> Bit(a / 2, k - 1)
  {
    DivDiv(a, 2, Pow2(k - 1));
  }

  lemma {:induction false} BitLow(a: nat)
    ensures Bit(a, 0) <==> a % 2 == 1
  {
  }

  lemma {:induction false} OrNone(a: nat)
    ensures Or(a, 0) == a
  {
  }

  /** a & b keeps the bits both have. */
  lemma {:induction false} AndBits(a: nat, b: nat, j: nat)
    ensures Bit(And(a, b), j) <==> Bit(a, j) && Bit(b, j)
    decreases j
  {
    AndStep(a, b);
    hide And, Bit;
    BitLow(a);
    BitLow(b);
    BitLow(And(a, b));
    if j > 0 {
      BitHalf(a, j);
      BitHalf(b, j);
      BitHalf(And(a, b), j);
      AndBits(a / 2, b / 2, j - 1);
    }
  }

  lemma {:induction false} AndStep(a: nat, b: nat)
    ensures And(a, b) / 2 == And(a / 2, b / 2) && (And(a, b) % 2 == 1 <==> a % 2 == 1 && b % 2 == 1)
  {
  }

  /** ~(1 << k) within a byte. */
  function NotBit(k: nat): nat
    requires k < 8
  {
    match k
    case 0 => 254 case 1 => 253 case 2 => 251 case 3 => 247
    case 4 => 239 case 5 => 223 case 6 => 191 case _ => 127
  }

  lemma {:induction false} NotBits(k: nat, j: nat)
    requires k < 8 && j < 8
    ensures Bit(NotBit(k), j) <==> j != k
  {
    BytePowers();
  }

  lemma {:induction false} BytePowers()
    ensures Pow2(0) == 1 && Pow2(1) == 2 && Pow2(2) == 4 && Pow2(3) == 8
    ensures Pow2(4) == 16 && Pow2(5) == 32 && Pow2(6) == 64 && Pow2(7) == 128
  {
    Pow2Values();
    assert Pow2(6) == 2 * Pow2(5) && Pow2(7) == 2 * Pow2(6);
  }

  /** A single bit's mask has that bit only. */
  lemma {:induction false} PowBits(k: nat, j: nat)
    ensures Bit(Pow2(k), j) <==> j == k
    decreases k + j
  {
    if k == 0 {
      if j > 0 { BitHalf(1, j); ZeroBits(j - 1); } else { BitLow(1); }
    } else if j == 0 {
      BitLow(Pow2(k));
    } else {
      BitHalf(Pow2(k), j);
      PowBits(k - 1, j - 1);
    }
  }

  lemma {:induction false} ZeroBits(j: nat)
    ensures !Bit(0, j)
  {
    assert 0 / Pow2(j) == 0;
  }

  /** A byte is 255 when all its bits are set. */
  lemma {:induction false} FullBits(a: nat, n: nat)
    requires a < Pow2(n)
    ensures a == Pow2(n) - 1 <==> forall j: nat :: j < n ==> Bit(a, j)
    decreases n
  {
    if n > 0 {
      FullBits(a / 2, n - 1);
      hide Bit;
      BitLow(a);
      forall j: nat | j < n - 1 ensures Bit(a, j + 1) <==> Bit(a / 2, j) {
        BitHalf(a, j + 1);
      }
      if a == Pow2(n) - 1 {
        forall j: nat | j < n ensures Bit(a, j) {
          if j > 0 { assert Bit(a / 2, j - 1); }
        }
      } else if forall j: nat :: j < n ==> Bit(a, j) {
        assert Bit(a, 0);
      }
    }
  }

  lemma {:induction false} OrByte(a: Byte, b: Byte)
    ensures Or(a, b) < 256
  {
    OrBound(a, b, 8);
    Pow2Values();
  }

  lemma {:induction false} OrBound(a: nat, b: nat, k: nat)
    requires a < Pow2(k) && b < Pow2(k)
    ensures Or(a, b) < Pow2(k)
    decreases k
  {
    if k != 0 {
      OrBound(a / 2, b / 2, k - 1);
    }
  }

  lemma {:induction false} OrBits(a: nat, b: nat, j: nat)
    ensures Bit(Or(a, b), j) <==> Bit(a, j) || Bit(b, j)
    decreases j
  {
    OrHalves(a, b);
    hide Or, Bit;
    BitLow(a);
    BitLow(b);
    BitLow(Or(a, b));
    if j > 0 {
      BitHalf(a, j);
      BitHalf(b, j);
      BitHalf(Or(a, b), j);
      OrBits(a / 2, b / 2, j - 1);
    }
  }

  lemma {:induction false} OrHalves(a: nat, b: nat)
    ensures Or(a, b) / 2 == Or(a / 2, b / 2) && (Or(a, b) % 2 == 1 <==> a % 2 == 1 || b % 2 == 1)
  {
    if a == 0 || b == 0 {
      OrNone(a / 2);
    }
  }

  lemma {:induction false} AndByte(a: nat, b: nat)
    ensures And(a, b) <= a
  {
    if a != 0 && b != 0 { AndByte(a / 2, b / 2); }
  }

  // ------------------------------------------------------------------- the map

  /** The numbers whose bits are set in a map. */
  ghost function BitsSet(m: seq<Byte>): (r: set<nat>)
    ensures forall b :: b in r <==> IsSet(m, b)
  {
    set b: nat | b < 8 * |m| && IsSet(m, b)
  }

  predicate IsSet(m: seq<Byte>, b: nat) {
    b < 8 * |m| && Bit(m[b / 8], b % 8)
  }

  /** One byte replaced: the bits of the others are as they were. */
  lemma {:induction false} SetByte(m: seq<Byte>, at: nat, x: Byte, b: nat)
    requires at < |m|
    ensures IsSet(m[at := x], b) <==> if b / 8 == at then Bit(x, b % 8) else IsSet(m, b)
  {
    hide Bit;
  }

  /** map[bit / 8] |= 1 << bit % 8 */
  function WithBit(m: seq<Byte>, bit: nat): (r: seq<Byte>)
    requires bit < 8 * |m|
    ensures |r| == |m|
  {
    PowByte(bit % 8);
    OrByte(m[bit / 8], Pow2(bit % 8));
    m[bit / 8 := Or(m[bit / 8], Pow2(bit % 8))]
  }

  lemma {:induction false} PowByte(k: nat)
    requires k < 8
    ensures Pow2(k) < 256
  {
    BytePowers();
  }

  lemma {:induction false} WithBitIs(m: seq<Byte>, bit: nat)
    requires bit < 8 * |m|
    ensures BitsSet(WithBit(m, bit)) == BitsSet(m) + {bit}
  {
    hide Bit, Or, Pow2;
    forall b: nat ensures IsSet(WithBit(m, bit), b) <==> IsSet(m, b) || b == bit {
      PowByte(bit % 8);
      OrByte(m[bit / 8], Pow2(bit % 8));
      SetByte(m, bit / 8, Or(m[bit / 8], Pow2(bit % 8)), b);
      if b / 8 == bit / 8 {
        OrBits(m[bit / 8], Pow2(bit % 8), b % 8);
        PowBits(bit % 8, b % 8);
      }
    }
  }

  /** map[bit / 8] &= ~(1 << bit % 8) */
  function WithoutBit(m: seq<Byte>, bit: nat): (r: seq<Byte>)
    requires bit < 8 * |m|
    ensures |r| == |m|
  {
    AndByte(m[bit / 8], NotBit(bit % 8));
    m[bit / 8 := And(m[bit / 8], NotBit(bit % 8))]
  }

  lemma {:induction false} WithoutBitIs(m: seq<Byte>, bit: nat)
    requires bit < 8 * |m|
    ensures BitsSet(WithoutBit(m, bit)) == BitsSet(m) - {bit}
  {
    hide Bit, And, NotBit;
    forall b: nat ensures IsSet(WithoutBit(m, bit), b) <==> IsSet(m, b) && b != bit {
      AndByte(m[bit / 8], NotBit(bit % 8));
      SetByte(m, bit / 8, And(m[bit / 8], NotBit(bit % 8)), b);
      if b / 8 == bit / 8 {
        AndBits(m[bit / 8], NotBit(bit % 8), b % 8);
        NotBits(bit % 8, b % 8);
      }
    }
  }

  /** struct freemap */
  class Freemap {
    var cur: nat
    var inUse: seq<Byte>
    var freed: seq<Byte>

    ghost function Used(): set<nat>
      reads this
    {
      BitsSet(inUse)
    }

    ghost function Freed(): set<nat>
      reads this
    {
      BitsSet(freed)
    }

    /** Every number is in use or freed since the last flush. */
    ghost predicate Full()
      reads this
    {
      AllTaken(inUse, freed, 8 * |inUse|)
    }

    /** How many numbers freemap_next can still give out. */
    ghost function Room(): nat
      reads this
    {
      |FreeIn(inUse, freed)|
    }

    /** cur is the byte before which none is free. */
    ghost predicate Valid()
      reads this
    {
      |inUse| == |freed| && cur <= |inUse| && AllTaken(inUse, freed, 8 * cur)
    }

    /** freemap_init */
    constructor (size: nat)
      ensures Valid() && |inUse| == size && Used() == {} && Freed() == {}
    {
      cur, inUse, freed := 0, seq(size, _ => 0), seq(size, _ => 0);
      new;
      NoBits(inUse);
      NoBits(freed);
    }

    /** freemap_flush */
    method Flush()
      requires Valid()
      modifies this
      ensures Valid() && Used() == old(Used()) && Freed() == {} && inUse == old(inUse)
    {
      cur := 0;
      freed := seq(|freed|, _ => 0);
      NoBits(freed);
    }

    /** freemap_mark */
    method Mark(bit: nat)
      requires Valid() && bit < 8 * |inUse|
      modifies this
      ensures Valid() && Used() == old(Used()) + {bit} && Freed() == old(Freed()) && |inUse| == |old(inUse)|
    {
      hide *;
      SizesIs();
      WithBitIs(inUse, bit);
      ghost var m := inUse;
      inUse := WithBit(inUse, bit);
      NowSized(m, freed, cur);
    }

    /** freemap_unmark: a bit that was set is kept among the freed. */
    method Unmark(bit: nat)
      requires Valid() && bit < 8 * |inUse|
      modifies this
      ensures Valid() && Used() == old(Used()) - {bit} && |inUse| == |old(inUse)|
      ensures Freed() == old(Freed()) + (if bit in old(Used()) then {bit} else {})
      ensures bit in old(Used()) ==> Room() == old(Room())
    {
      hide *;
      SizesIs();
      RoomIs();
      ghost var m, f := inUse, freed;
      InBits(inUse, bit);
      if IsSet(inUse, bit) {
        WithBitIs(freed, bit);
        freed := WithBit(freed, bit);
      }
      WithoutBitIs(inUse, bit);
      inUse := WithoutBit(inUse, bit);
      NowMoved(m, f, bit, cur);
      RoomIs();
      RoomKept(m, f, inUse, freed, bit);
    }

    /** freemap_next: the least number neither in use nor freed since the last
        flush, now in use; -1 if there is none. */
    method Next() returns (r: int)
      requires Valid()
      modifies this
      ensures Valid() && Freed() == old(Freed()) && |inUse| == |old(inUse)|
      ensures (r == -1 <==> old(Full())) && (r == -1 <==> old(Room()) == 0)
      ensures r != -1 ==> Room() == old(Room()) - 1
      ensures r == -1 ==> Used() == old(Used())
      ensures r != -1 ==> 0 <= r < 8 * |inUse| && r !in old(Used()) + old(Freed()) && Used() == old(Used()) + {r}
      ensures r != -1 ==> forall b: nat :: b < r ==> b in old(Used()) + old(Freed())
    {
      hide *;
      SizesIs();
      FullIs();
      RoomIs();
      var i := cur;
      while i < |inUse|
        invariant cur <= i <= |inUse| == |freed| && inUse == old(inUse) && freed == old(freed)
        invariant AllTaken(inUse, freed, 8 * i) && cur == i
      {
        OrByte(inUse[i], freed[i]);
        var val := Or(inUse[i], freed[i]);
        ValBits(inUse, freed, i);
        if val != 0xff {
          var j := 0;
          while j < 8
            invariant 0 <= j <= 8 && AllTaken(inUse, freed, 8 * i + j)
            invariant inUse == old(inUse) && freed == old(freed) && cur == i
            invariant forall n: nat :: n < j ==> Bit(val, n)
          {
            AndPow(val, j);
            if And(val, Pow2(j)) == 0 {
              Free(inUse, freed, i, j);
              WithBitIs(inUse, i * 8 + j);
              ghost var m := inUse;
              inUse := WithBit(inUse, i * 8 + j);
              cur := i;
              NowSized(m, freed, i);
              TakenBelow(m, freed, i * 8 + j);
              NotTaken(m, freed, i * 8 + j);
              RoomIs();
              RoomLess(m, inUse, freed, i * 8 + j);
              return i * 8 + j;
            }
            TakenMore(inUse, freed, i, j);
            j := j + 1;
          }
          AllOnes(val);
        } else {
          TakenByte(inUse, freed, i);
          cur := cur + 1;
        }
        i := i + 1;
      }
      NowSized(inUse, freed, cur);
      NoRoom(inUse, freed);
      r := -1;
    }

    lemma {:induction false} RoomIs()
      ensures Room() == |FreeIn(inUse, freed)|
    {
    }

    lemma {:induction false} FullIs()
      ensures Full() <==> AllTaken(inUse, freed, 8 * |inUse|)
    {
    }

    lemma {:induction false} InRange(b: nat)
      requires b in Used()
      ensures b < 8 * |inUse|
    {
    }

    lemma {:induction false} SizesIs()
      requires Valid()
      ensures |inUse| == |freed| && cur <= |inUse| && AllTaken(inUse, freed, 8 * cur)
      ensures Used() == BitsSet(inUse) && Freed() == BitsSet(freed)
    {
      hide BitsSet;
    }

    /** Bits have only been added. */
    lemma {:induction false} NowSized(m: seq<Byte>, f: seq<Byte>, c: nat)
      requires AllTaken(m, f, 8 * c) && c == cur <= |inUse| == |freed| && freed == f && BitsSet(m) <= BitsSet(inUse)
      ensures Valid() && Used() == BitsSet(inUse) && Freed() == BitsSet(freed)
    {
      hide BitsSet;
      TakenMoved(m, f, inUse, freed, 8 * c);
    }

    lemma {:induction false} NowMoved(m: seq<Byte>, f: seq<Byte>, bit: nat, c: nat)
      requires AllTaken(m, f, 8 * c) && c == cur <= |inUse| == |freed| && BitsSet(inUse) == BitsSet(m) - {bit}
      requires if bit in BitsSet(m) then BitsSet(freed) == BitsSet(f) + {bit} else freed == f
      ensures Valid() && Used() == BitsSet(inUse) && Freed() == BitsSet(f) + (if bit in BitsSet(m) then {bit} else {})
    {
      hide BitsSet;
      TakenMoved(m, f, inUse, freed, 8 * c);
    }
  }

  lemma {:induction false} InBits(m: seq<Byte>, b: nat)
    ensures b in BitsSet(m) <==> IsSet(m, b)
  {
  }

  lemma {:induction false} NoBits(m: seq<Byte>)
    requires forall i :: 0 <= i < |m| ==> m[i] == 0
    ensures BitsSet(m) == {}
  {
    forall b: nat ensures !IsSet(m, b) {
      ZeroBits(b % 8);
    }
  }

  /** No number below n is free. */
  ghost predicate AllTaken(m: seq<Byte>, f: seq<Byte>, n: nat) {
    forall b: nat :: b < n ==> b in BitsSet(m) + BitsSet(f)
  }

  lemma {:induction false} TakenMoved(m: seq<Byte>, f: seq<Byte>, m': seq<Byte>, f': seq<Byte>, n: nat)
    requires AllTaken(m, f, n) && BitsSet(m) + BitsSet(f) <= BitsSet(m') + BitsSet(f')
    ensures AllTaken(m', f', n)
  {
    hide BitsSet;
  }

  ghost function FreeIn(m: seq<Byte>, f: seq<Byte>): set<nat> {
    set b: nat | b < 8 * |m| && b !in BitsSet(m) + BitsSet(f)
  }

  lemma {:induction false} RoomLess(m: seq<Byte>, m': seq<Byte>, f: seq<Byte>, b: nat)
    requires |m'| == |m| && b < 8 * |m| && b !in BitsSet(m) + BitsSet(f) && BitsSet(m') == BitsSet(m) + {b}
    ensures |FreeIn(m, f)| > 0 && |FreeIn(m', f)| == |FreeIn(m, f)| - 1
  {
    hide BitsSet;
    assert b in FreeIn(m, f);
    assert FreeIn(m', f) == FreeIn(m, f) - {b};
  }

  lemma {:induction false} RoomKept(m: seq<Byte>, f: seq<Byte>, m': seq<Byte>, f': seq<Byte>, bit: nat)
    requires |m'| == |m| && BitsSet(m') == BitsSet(m) - {bit} && (bit in BitsSet(m) ==> BitsSet(f') == BitsSet(f) + {bit})
    ensures bit in BitsSet(m) ==> |FreeIn(m', f')| == |FreeIn(m, f)|
  {
    hide BitsSet;
    if bit in BitsSet(m) {
      assert FreeIn(m', f') == FreeIn(m, f);
    }
  }

  lemma {:induction false} NoRoom(m: seq<Byte>, f: seq<Byte>)
    requires AllTaken(m, f, 8 * |m|)
    ensures |FreeIn(m, f)| == 0
  {
    hide BitsSet;
    assert FreeIn(m, f) == {};
  }

  lemma {:induction false} NotTaken(m: seq<Byte>, f: seq<Byte>, b: nat)
    requires b < 8 * |m| && b !in BitsSet(m) + BitsSet(f)
    ensures !AllTaken(m, f, 8 * |m|)
  {
    hide BitsSet;
  }

  lemma {:induction false} TakenBelow(m: seq<Byte>, f: seq<Byte>, n: nat)
    requires AllTaken(m, f, n)
    ensures forall b: nat :: b < n ==> b in BitsSet(m) + BitsSet(f)
  {
  }

  /** The bits of one byte of the two maps together. */
  lemma {:induction false} ValBits(m: seq<Byte>, f: seq<Byte>, i: nat)
    requires i < |m| == |f|
    ensures forall j: nat :: j < 8 ==> (Bit(Or(m[i], f[i]), j) <==> 8 * i + j in BitsSet(m) + BitsSet(f))
  {
    hide Bit, Or;
    forall j: nat | j < 8 ensures Bit(Or(m[i], f[i]), j) <==> 8 * i + j in BitsSet(m) + BitsSet(f) {
      OrBits(m[i], f[i], j);
      assert (8 * i + j) / 8 == i && (8 * i + j) % 8 == j;
    }
  }

  lemma {:induction false} AndPow(a: nat, k: nat)
    ensures And(a, Pow2(k)) == 0 <==> !Bit(a, k)
  {
    AndBit(a, k);
  }

  lemma {:induction false} Free(m: seq<Byte>, f: seq<Byte>, i: nat, j: nat)
    requires i < |m| == |f| && j < 8 && !Bit(Or(m[i], f[i]), j)
    requires forall j: nat :: j < 8 ==> (Bit(Or(m[i], f[i]), j) <==> 8 * i + j in BitsSet(m) + BitsSet(f))
    ensures i * 8 + j !in BitsSet(m) + BitsSet(f)
  {
  }

  lemma {:induction false} TakenMore(m: seq<Byte>, f: seq<Byte>, i: nat, j: nat)
    requires i < |m| == |f| && j < 8 && Bit(Or(m[i], f[i]), j) && AllTaken(m, f, 8 * i + j)
    requires forall j: nat :: j < 8 ==> (Bit(Or(m[i], f[i]), j) <==> 8 * i + j in BitsSet(m) + BitsSet(f))
    ensures AllTaken(m, f, 8 * i + (j + 1))
  {
    hide Bit, Or, BitsSet;
  }

  lemma {:induction false} TakenByte(m: seq<Byte>, f: seq<Byte>, i: nat)
    requires i < |m| == |f| && Or(m[i], f[i]) == 255 && AllTaken(m, f, 8 * i)
    requires forall j: nat :: j < 8 ==> (Bit(Or(m[i], f[i]), j) <==> 8 * i + j in BitsSet(m) + BitsSet(f))
    ensures AllTaken(m, f, 8 * (i + 1))
  {
    Pow2Values();
    FullBits(255, 8);
    hide Bit, Or, BitsSet;
    forall b: nat | 8 * i <= b < 8 * (i + 1) ensures b in BitsSet(m) + BitsSet(f) {
      assert Bit(255, b - 8 * i);
      assert 8 * i + (b - 8 * i) == b;
    }
  }

  lemma {:induction false} AllOnes(val: nat)
    requires val < 256 && (forall n: nat :: n < 8 ==> Bit(val, n))
    ensures val == 0xff
  {
    Pow2Values();
    FullBits(val, 8);
  }
}
