/** Unsigned machine words as natural numbers, with C's bitwise operators
    defined bit by bit and the few laws the packed representations rely on. */
module Bits {

  type Byte = x: int | 0 <= x < 256
  type Word = x: int | 0 <= x < 0x1_0000_0000

  function Pow2(k: nat): (r: nat)
    ensures r > 0
  {
    if k == 0 then 1 else 2 * Pow2(k - 1)
  }

  /** C's `a & b`. */
  function And(a: nat, b: nat): nat
    decreases a
  {
    if a == 0 || b == 0 then 0
    else 2 * And(a / 2, b / 2) + (if a % 2 == 1 && b % 2 == 1 then 1 else 0)
  }

  /** C's `a | b`. */
  function Or(a: nat, b: nat): nat
    decreases a + b
  {
    if a == 0 then b else if b == 0 then a
    else 2 * Or(a / 2, b / 2) + (if a % 2 == 1 || b % 2 == 1 then 1 else 0)
  }

  /** C's `a ^ b`. */
  function Xor(a: nat, b: nat): nat
    decreases a + b
  {
    if a == 0 then b else if b == 0 then a
    else 2 * Xor(a / 2, b / 2) + (if a % 2 != b % 2 then 1 else 0)
  }

  lemma {:induction false} Pow2Add(a: nat, b: nat)
    ensures Pow2(a + b) == Pow2(a) * Pow2(b)
  {
    if a == 0 {
      assert 1 * Pow2(b) == Pow2(b);
    } else {
      Pow2Add(a - 1, b);
      assert a + b - 1 == a - 1 + b;
      assert 2 * (Pow2(a - 1) * Pow2(b)) == (2 * Pow2(a - 1)) * Pow2(b);
    }
  }

  lemma {:induction false} Pow2Mono(a: nat, b: nat)
    requires a <= b
    ensures 1 <= Pow2(a) <= Pow2(b)
  {
    if a < b { Pow2Mono(a, b - 1); }
  }

  lemma {:induction false} Pow2Values()
    ensures Pow2(1) == 2 && Pow2(2) == 4 && Pow2(3) == 8 && Pow2(4) == 16
    ensures Pow2(5) == 32 && Pow2(8) == 256 && Pow2(16) == 65536
    ensures Pow2(20) == 1048576 && Pow2(24) == 16777216 && Pow2(32) == 4294967296
  {
    assert Pow2(4) == 16;
    assert Pow2(8) == 256 by { Pow2Add(4, 4); }
    assert Pow2(16) == 65536 by { Pow2Add(8, 8); }
    Pow2Add(16, 4);
    Pow2Add(16, 8);
    Pow2Add(16, 16);
  }

  function Remainder(a: nat, m: nat): nat
    requires m > 0
  {
    a % m
  }

  /** Masking with the low k bits set is reduction modulo 2^k. */
  lemma {:induction false} AndMask(a: nat, k: nat)
    ensures And(a, Pow2(k) - 1) == a % Pow2(k)
  {
    MaskRemainder(a, k);
  }

  lemma {:induction false} MaskRemainder(a: nat, k: nat)
    ensures And(a, Pow2(k) - 1) == Remainder(a, Pow2(k))
    decreases k
  {
    hide And, Remainder;
    if k == 0 {
      AndZero(a);
    } else {
      var m := Pow2(k - 1);
      AndOdd(a, m - 1);
      MaskRemainder(a / 2, k - 1);
      HalfRemainder(a, m);
    }
  }

  lemma {:induction false} HalfRemainder(a: nat, m: nat)
    requires m > 0
    ensures Remainder(a, 2 * m) == 2 * Remainder(a / 2, m) + a % 2
  {
    HalfMod(a, m);
  }

  lemma {:induction false} AndZero(a: nat)
    ensures And(a, 0) == 0 && a % 1 == 0 && Remainder(a, 1) == 0
  {
  }

  lemma {:induction false} AndOdd(a: nat, b: nat)
    ensures And(a, 2 * b + 1) == 2 * And(a / 2, b) + a % 2
  {
  }

  lemma {:induction false} HalfMod(a: nat, m: nat)
    requires m > 0
    ensures a % (2 * m) == 2 * (a / 2 % m) + a % 2
  {
    DivSplit(a, 2);
    DivSplit(a / 2, m);
    Regroup(a, 2, m, a / 2, a / 2 / m, a / 2 % m, a % 2);
    assert a / 2 % m * 2 == 2 * (a / 2 % m);
    DivModUnique(a, 2 * m, a / 2 / m, a / 2 % m * 2 + a % 2);
  }

  lemma {:induction false} DivSplit(a: nat, m: nat)
    requires m > 0
    ensures a == a / m * m + a % m
  {
  }

  /** Digits to two bases, read as one digit to the product. */
  lemma {:induction false} Regroup(a: nat, m: nat, n: nat, b: nat, q: nat, r: nat, s: nat)
    requires m > 0 && a == b * m + s && b == q * n + r && r < n && s < m
    ensures m * n > 0 && r * m + s < m * n && a == q * (m * n) + (r * m + s)
  {
    MulLess(0, n, m);
    MulLess(r, n, m);
    assert n * m == m * n;
    assert (q * n + r) * m == q * n * m + r * m;
    assert q * n * m == q * (n * m);
  }

  lemma {:induction false} DivDiv(a: nat, m: nat, n: nat)
    requires m > 0 && n > 0
    ensures m * n > 0 && a / m / n == a / (m * n)
  {
    var b := a / m;
    var q, r, s := b / n, b % n, a % m;
    DivSplit(a, m);
    DivSplit(b, n);
    Regroup(a, m, n, b, q, r, s);
    DivModUnique(a, m * n, q, r * m + s);
  }

  lemma {:induction false} DivModUnique(a: nat, m: nat, q: nat, r: nat)
    requires m > 0 && r < m && a == q * m + r
    ensures a / m == q && a % m == r
  {
    var q' := a / m;
    assert a == q' * m + a % m;
    MulLess(q', q, m);
    MulLess(q, q', m);
  }

  lemma {:induction false} MulLess(a: int, b: int, m: int)
    requires m > 0
    ensures a < b ==> a * m + m <= b * m
  {
    if a < b {
      NonNegative(b - a - 1, m);
      assert (b - a - 1) * m == b * m - a * m - m;
    }
  }

  lemma {:induction false} NonNegative(a: nat, m: nat)
    ensures a * m >= 0
  {
  }

  /** Or-ing a shifted value onto disjoint low bits is addition. */
  lemma {:induction false} OrDisjoint(hi: nat, lo: nat, k: nat)
    requires lo < Pow2(k)
    ensures Or(lo, hi * Pow2(k)) == lo + hi * Pow2(k)
    ensures Or(hi * Pow2(k), lo) == lo + hi * Pow2(k)
    decreases k
  {
    if k != 0 {
      var m := Pow2(k - 1);
      assert hi * Pow2(k) == 2 * (hi * m);
      OrDisjoint(hi, lo / 2, k - 1);
    }
  }

  /** Masking a byte with 0xf0 keeps its high nibble in place. */
  lemma {:induction false} AndHighNibble(a: nat)
    ensures And(a, 0xf0) == 16 * (a / 16 % 16)
  {
    AndTimes16(a, 15);
    AndMask(a / 16, 4);
    Pow2Values();
  }

  lemma {:induction false} AndTimes16(a: nat, m: nat)
    ensures And(a, 16 * m) == 16 * And(a / 16, m)
  {
    hide And;
    var x, y, z := a / 2, a / 2 / 2, a / 2 / 2 / 2;
    AndDouble(a, 8 * m);
    AndDouble(x, 4 * m);
    AndDouble(y, 2 * m);
    AndDouble(z, m);
    assert z / 2 == a / 16;
  }

  lemma {:induction false} AndDouble(a: nat, b: nat)
    ensures And(a, 2 * b) == 2 * And(a / 2, b)
  {
  }

  /** Testing one bit. */
  lemma {:induction false} AndBit(a: nat, k: nat)
    ensures And(a, Pow2(k)) != 0 <==> a / Pow2(k) % 2 == 1
    decreases k
  {
    if k == 0 {
      AndZero(a / 2);
      assert And(a, 1) == if a % 2 == 1 then 1 else 0;
    } else {
      AndDouble(a, Pow2(k - 1));
      AndBit(a / 2, k - 1);
      DivDiv(a, 2, Pow2(k - 1));
    }
  }

  /** Flipping one bit. */
  lemma {:induction false} XorBit(a: nat, k: nat)
    ensures a / Pow2(k) % 2 == 1 ==> a >= Pow2(k) && Xor(a, Pow2(k)) == a - Pow2(k)
    ensures a / Pow2(k) % 2 == 0 ==> Xor(a, Pow2(k)) == a + Pow2(k)
    decreases k
  {
    if k == 0 {
      assert Xor(a / 2, 0) == a / 2;
    } else {
      XorBit(a / 2, k - 1);
      DivDiv(a, 2, Pow2(k - 1));
      XorDouble(a, Pow2(k - 1));
    }
  }

  lemma {:induction false} XorDouble(a: nat, b: nat)
    ensures Xor(a, 2 * b) == 2 * Xor(a / 2, b) + a % 2
  {
  }

  lemma {:induction false} XorBound(a: nat, b: nat, k: nat)
    requires a < Pow2(k) && b < Pow2(k)
    ensures Xor(a, b) < Pow2(k)
    decreases k
  {
    if k != 0 {
      XorBound(a / 2, b / 2, k - 1);
    }
  }

  // C's operators as used on packed words, each with its arithmetic meaning.

  /** w & 0xff */
  method LowByte(w: nat) returns (b: Byte)
    ensures b == w % 0x100
  {
    AndMask(w, 8);
    Pow2Values();
    b := And(w, 0xff);
  }

  /** w & 0xffff */
  method LowHalf(w: nat) returns (h: nat)
    ensures h == w % 0x10000
  {
    AndMask(w, 16);
    Pow2Values();
    h := And(w, 0xffff);
  }

  /** w & 0xf */
  method LowNibble(w: nat) returns (n: nat)
    ensures n == w % 16
  {
    AndMask(w, 4);
    Pow2Values();
    n := And(w, 0xf);
  }

  /** b & 0xf0 */
  method HighNibble(b: nat) returns (n: nat)
    ensures n == 16 * (b / 16 % 16)
  {
    AndHighNibble(b);
    n := And(b, 0xf0);
  }

  /** lo | hi << k, where lo fits below bit k */
  method OrShifted(lo: nat, hi: nat, k: nat) returns (w: nat)
    requires lo < Pow2(k)
    ensures w == lo + hi * Pow2(k)
  {
    OrDisjoint(hi, lo, k);
    w := Or(lo, hi * Pow2(k));
  }

  /** (i << 2) & 4: the shift that selects the half of byte i/2 */
  method NibbleShift(i: nat) returns (s: nat)
    ensures s == 4 * (i % 2)
  {
    var one := 1;
    AndDouble(4 * i, 2 * one);
    AndDouble(2 * i, one);
    AndMask(i, 1);
    Pow2Values();
    s := And(4 * i, 4);
  }
}
