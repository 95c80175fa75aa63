/** The bit buffer of inflate: bytes come in above the bits that are left, and each byte
    is read from its low bit up. */
module InflateInput {
  import opened Bits
  import opened BitString
  import opened HuftLookup

  /** The input as far as it is ever read. */
  type Source = nat -> Byte

  /** Bit i of the input. */
  function BitAt(src: Source, i: nat): Bit {
    var c: nat := src(i / 8);
    c / Pow2(i % 8) % 2
  }

  /** The n bits from bit p on. */
  function Ahead(src: Source, p: nat, n: nat): (b: seq<Bit>)
    ensures |b| == n && forall i :: 0 <= i < n ==> b[i] == BitAt(src, p + i)
    decreases n
  {
    if n == 0 then [] else [BitAt(src, p)] + Ahead(src, p + 1, n - 1)
  }

  lemma {:induction false} AheadSplit(src: Source, p: nat, m: nat, n: nat)
    ensures Ahead(src, p, m + n) == Ahead(src, p, m) + Ahead(src, p + m, n)
  {
    var a, b := Ahead(src, p, m + n), Ahead(src, p, m) + Ahead(src, p + m, n);
    forall i | 0 <= i < m + n ensures a[i] == b[i] {
      if i >= m { assert p + i == p + m + (i - m); }
    }
  }

  /** Bits spelled from bit p on, and more after them. */
  ghost predicate Spelled(src: Source, p: nat, bits: seq<Bit>) {
    Ahead(src, p, |bits|) == bits
  }

  lemma {:induction false} SpelledSplit(src: Source, p: nat, a: seq<Bit>, b: seq<Bit>)
    ensures Spelled(src, p, a + b) <==> Spelled(src, p, a) && Spelled(src, p + |a|, b)
  {
    AheadSplit(src, p, |a|, |b|);
    var x, y := Ahead(src, p, |a|), Ahead(src, p + |a|, |b|);
    if x + y == a + b {
      assert x == (x + y)[..|a|] == (a + b)[..|a|] == a;
      assert y == (x + y)[|a|..] == (a + b)[|a|..] == b;
    }
  }

  lemma {:induction false} SpelledPrefix(src: Source, p: nat, a: seq<Bit>, n: nat)
    requires Spelled(src, p, a) && n >= |a|
    ensures a <= Ahead(src, p, n)
  {
    AheadSplit(src, p, |a|, n - |a|);
  }

  /** A number of n bits, lowest first. */
  function LowBits(v: nat, n: nat): (b: seq<Bit>)
    ensures |b| == n
  {
    if n == 0 then [] else [v % 2] + LowBits(v / 2, n - 1)
  }

  lemma {:induction false} LowOfBits(v: nat, n: nat)
    requires v < Pow2(n)
    ensures Low(LowBits(v, n)) == v
  {
    if n != 0 {
      LowOfBits(v / 2, n - 1);
      assert LowBits(v, n)[1..] == LowBits(v / 2, n - 1);
    }
  }

  lemma {:induction false} SpelledLow(src: Source, p: nat, v: nat, n: nat)
    requires Spelled(src, p, LowBits(v, n)) && v < Pow2(n)
    ensures Low(Ahead(src, p, n)) == v
  {
    hide Ahead, LowBits, Low;
    LowOfBits(v, n);
  }

  lemma {:induction false} LowJoin(a: seq<Bit>, b: seq<Bit>)
    ensures Low(a + b) == Low(a) + Low(b) * Pow2(|a|)
  {
    if a == [] {
      assert a + b == b;
      assert Low(b) * 1 == Low(b);
    } else {
      LowJoin(a[1..], b);
      assert (a + b)[1..] == a[1..] + b;
      Twice(Low(b), Pow2(|a| - 1));
    }
  }

  lemma {:induction false} Twice(x: nat, p: nat)
    ensures 2 * (x * p) == x * (2 * p)
  {
  }

  /** The bits of one byte. */
  lemma {:induction false} ByteAhead(src: Source, i: nat)
    ensures Low(Ahead(src, 8 * i, 8)) == src(i)
  {
    hide BitAt, Ahead, LowBits, Pow2, Low;
    var c := src(i);
    ByteBits(c);
    var a, b := Ahead(src, 8 * i, 8), LowBits(c, 8);
    forall k | 0 <= k < 8 ensures a[k] == b[k] {
      BitOfByte(src, i, k);
    }
    assert a == b;
    Pow2Values();
    LowOfBits(c, 8);
  }

  lemma {:induction false} BitOfByte(src: Source, i: nat, k: nat)
    requires k < 8
    ensures BitAt(src, 8 * i + k) == src(i) as int / Pow2(k) % 2
  {
    assert (8 * i + k) / 8 == i && (8 * i + k) % 8 == k;
  }

  lemma {:induction false} ByteBits(c: Byte)
    ensures forall k :: 0 <= k < 8 ==> LowBits(c, 8)[k] == c as int / Pow2(k) % 2
  {
    LowBitAt(c, 8, 0); LowBitAt(c, 8, 1); LowBitAt(c, 8, 2); LowBitAt(c, 8, 3);
    LowBitAt(c, 8, 4); LowBitAt(c, 8, 5); LowBitAt(c, 8, 6); LowBitAt(c, 8, 7);
  }

  lemma {:induction false} LowBitAt(v: nat, n: nat, k: nat)
    requires k < n
    ensures LowBits(v, n)[k] == v / Pow2(k) % 2
  {
    if k == 0 {
      assert v / 1 == v;
    } else {
      LowBitAt(v / 2, n - 1, k - 1);
      DivDiv(v, 2, Pow2(k - 1));
    }
  }

  /** The first n of k bits, and the rest. */
  lemma {:induction false} LowSplit(src: Source, p: nat, n: nat, k: nat, v: nat)
    requires n <= k && v == Low(Ahead(src, p, k))
    ensures And(v, Pow2(n) - 1) == Low(Ahead(src, p, n)) && v / Pow2(n) == Low(Ahead(src, p + n, k - n))
  {
    hide Ahead;
    AndMask(v, n);
    AheadSplit(src, p, n, k - n);
    LowJoin(Ahead(src, p, n), Ahead(src, p + n, k - n));
    DivModUnique(v, Pow2(n), Low(Ahead(src, p + n, k - n)), Low(Ahead(src, p, n)));
  }

  /** One byte more above k bits. */
  lemma {:induction false} LowMore(src: Source, p: nat, k: nat, i: nat, v: nat)
    requires v == Low(Ahead(src, p, k)) && p + k == 8 * i
    ensures var c: nat := src(i); Or(c * Pow2(k), v) == Low(Ahead(src, p, k + 8))
  {
    hide Ahead, Or;
    AheadSplit(src, p, k, 8);
    LowJoin(Ahead(src, p, k), Ahead(src, 8 * i, 8));
    ByteAhead(src, i);
    OrDisjoint(src(i), v, k);
  }

  class BitBuffer {
    const src: Source
    var inptr: nat
    var bb: nat
    var bk: nat

    /** The next bit to be used. */
    ghost function At(): nat
      reads this
      requires Valid()
    {
      8 * inptr - bk
    }

    ghost predicate Valid()
      reads this
    {
      bk <= 8 * inptr && bk <= 32 && bb == Low(Ahead(src, 8 * inptr - bk, bk))
    }

    constructor (src: Source)
      ensures Valid() && At() == 0 && this.src == src && bk == 0
    {
      this.src, inptr, bb, bk := src, 0, 0, 0;
    }

    /** NEEDBITS */
    method NeedBits(n: nat)
      requires Valid() && n <= 24
      modifies this
      ensures Valid() && bk >= n && At() == old(At()) && (bk == old(bk) || bk < n + 8)
    {
      hide *;
      while bk < n
        invariant Valid() && At() == old(At()) && (bk == old(bk) || bk < n + 8)
        decreases n - bk
      {
        TakeByte();
      }
    }

    /** b |= NEXTBYTE() << k */
    method TakeByte()
      requires Valid() && bk <= 24
      modifies this
      ensures Valid() && At() == old(At()) && bk == old(bk) + 8
    {
      hide *;
      Filled();
      var c: nat := src(inptr);
      bb, inptr, bk := Or(c * Pow2(bk), bb), inptr + 1, bk + 8;
      NowFilled();
    }

    lemma {:induction false} NowFilled()
      requires bk <= 8 * inptr && bk <= 32 && bb == Low(Ahead(src, 8 * inptr - bk, bk))
      ensures Valid() && At() == 8 * inptr - bk
    {
      hide Low, Ahead;
    }

    lemma {:induction false} Filled()
      requires Valid()
      ensures bk <= 8 * inptr && At() == 8 * inptr - bk
      ensures var c: nat := src(inptr); Or(c * Pow2(bk), bb) == Low(Ahead(src, 8 * inptr - bk, bk + 8))
    {
      hide Low, Ahead, Or;
      LowMore(src, 8 * inptr - bk, bk, inptr, bb);
    }

    /** b & mask_bits[n] */
    method Peek(n: nat) returns (v: nat)
      requires Valid() && n <= bk
      ensures v == Low(Ahead(src, At(), n)) && v < Pow2(n)
    {
      hide *;
      LowPart(n);
      v := And(bb, Pow2(n) - 1);
    }

    lemma {:induction false} LowPart(n: nat)
      requires Valid() && n <= bk
      ensures And(bb, Pow2(n) - 1) == Low(Ahead(src, At(), n)) && Low(Ahead(src, At(), n)) < Pow2(n)
      ensures Pow2(n) > 0 && bk - n <= 8 * inptr && bk <= 32 && At() == 8 * inptr - bk
      ensures bb / Pow2(n) == Low(Ahead(src, 8 * inptr - (bk - n), bk - n))
    {
      hide Low, Ahead, And;
      LowSplit(src, 8 * inptr - bk, n, bk, bb);
      assert 8 * inptr - bk + n == 8 * inptr - (bk - n);
    }

    /** DUMPBITS */
    method DumpBits(n: nat)
      requires Valid() && n <= bk
      modifies this
      ensures Valid() && At() == old(At()) + n && bk == old(bk) - n
    {
      hide *;
      ghost var p := At();
      LowPart(n);
      bb, bk := bb / Pow2(n), bk - n;
      NowFilled();
    }

    lemma {:induction false} AtIs()
      requires Valid()
      ensures At() == 8 * inptr - bk && bk <= 8 * inptr
    {
      hide Low, Ahead;
    }

    /** Bytes are read whole, so what is left of the last is what is short of a boundary. */
    lemma {:induction false} Boundary()
      requires Valid()
      ensures (At() + bk % 8) % 8 == 0 && bk % 8 <= bk
    {
      hide Low, Ahead;
    }

    /** The next n bits as a number. */
    method Take(n: nat) returns (v: nat)
      requires Valid() && n <= 24
      modifies this
      ensures Valid() && At() == old(At()) + n && v == Low(Ahead(src, old(At()), n)) && v < Pow2(n)
    {
      NeedBits(n);
      v := Peek(n);
      DumpBits(n);
    }
  }
}
