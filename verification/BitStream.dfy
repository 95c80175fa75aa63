/** Reading a byte stream that arrives in pieces as a stream of bits. */
module BitStream {
  import opened Bits
  import opened BwtSpec
  import opened BitString

  /** The bits of a text, each byte from its top bit down. */
  function BitsOfText(s: Text): seq<Bit> {
    if s == [] then [] else BitsOf(s[0], 8) + BitsOfText(s[1..])
  }

  lemma {:induction false} BitsOfTextAppend(a: Text, b: Text)
    ensures BitsOfText(a + b) == BitsOfText(a) + BitsOfText(b)
  {
    if a == [] {
      assert a + b == b;
    } else {
      BitsOfTextAppend(a[1..], b);
      assert (a + b)[1..] == a[1..] + b;
    }
  }

  /** C's `x >> k`. */
  function Shr(x: nat, k: nat): nat {
    if k == 0 then x else Shr(x / 2, k - 1)
  }

  lemma {:induction false} BitsSplit(x: nat, a: nat, b: nat)
    ensures BitsOf(x, a + b) == BitsOf(Shr(x, b), a) + BitsOf(x, b)
    decreases b
  {
    if b != 0 {
      BitsSplit(x / 2, a, b - 1);
      assert a + b - 1 == a + (b - 1);
    }
  }

  /** Reduction modulo 2^m keeps the low m bits. */
  lemma {:induction false} BitsMod(x: nat, n: nat, m: nat)
    requires n <= m
    ensures BitsOf(x % Pow2(m), n) == BitsOf(x, n)
  {
    if n != 0 {
      HalfMod(x, Pow2(m - 1));
      BitsMod(x / 2, n - 1, m - 1);
    }
  }

  /** (x << k) + c has x above bit k and c below. */
  lemma {:induction false} ShiftedParts(x: nat, c: nat, k: nat)
    requires c < Pow2(k)
    ensures Shr(x * Pow2(k) + c, k) == x
    ensures BitsOf(x * Pow2(k) + c, k) == BitsOf(c, k)
  {
    if k == 0 {
      assert x * 1 == x;
    } else {
      ShiftedParts(x, c / 2, k - 1);
      Doubled(x, Pow2(k - 1), c);
    }
  }

  lemma {:induction false} Doubled(x: nat, p: nat, c: nat)
    ensures (x * (2 * p) + c) / 2 == x * p + c / 2
    ensures (x * (2 * p) + c) % 2 == c % 2
  {
    assert x * (2 * p) == 2 * (x * p);
  }

  lemma {:induction false} ShiftIn(buff: nat, live: nat, c: Byte)
    requires live <= 24
    ensures BitsOf((buff * 0x100 + c) % 0x1_0000_0000, live + 8) == BitsOf(buff, live) + BitsOf(c, 8)
  {
    Pow2Values();
    BitsMod(buff * 0x100 + c, live + 8, 32);
    BitsSplit(buff * 0x100 + c, live, 8);
    ShiftedParts(buff, c, 8);
  }

  lemma {:induction false} TakeTop(buff: nat, live: nat, n: nat)
    requires n <= live
    ensures BitsOf(buff, live) == BitsOf(And(Shr(buff, live - n), Pow2(n) - 1), n) + BitsOf(buff, live - n)
    ensures And(Shr(buff, live - n), Pow2(n) - 1) < Pow2(n)
  {
    BitsSplit(buff, n, live - n);
    BitsMod(Shr(buff, live - n), n, n);
    AndMask(Shr(buff, live - n), n);
  }

  datatype Got = Value(v: nat) | Starved

  class BitReader {
    var bsBuff: Word
    var bsLive: nat
    var input: Text

    constructor ()
      ensures Valid() && Stream() == []
    {
      bsBuff, bsLive, input := 0, 0, [];
      new;
    }

    ghost predicate Valid()
      reads this
    {
      bsLive <= 32
    }

    /** The bits not yet read: those in the buffer, then those of the input. */
    ghost function Stream(): seq<Bit>
      reads this
    {
      BitsOf(bsBuff, bsLive) + BitsOfText(input)
    }

    /** The caller supplies more input. */
    method Supply(more: Text)
      requires Valid()
      modifies `input
      ensures Valid() && Stream() == old(Stream()) + BitsOfText(more)
    {
      BitsOfTextAppend(input, more);
      input := input + more;
    }

    /** GET_BITS: the next n bits, or a suspension that loses none. */
    method GetBits(n: nat) returns (r: Got)
      requires Valid() && n <= 24
      modifies this
      ensures Valid()
      ensures r.Value? <==> n <= |old(Stream())|
      ensures r.Value? ==> r.v == ValueOf(old(Stream())[..n]) && Stream() == old(Stream())[n..]
      ensures r.Starved? ==> Stream() == old(Stream()) && input == []
    {
      while bsLive < n
        invariant Valid() && Stream() == old(Stream())
        decreases |input|
      {
        if input == [] {
          return Starved;
        }
        Refill();
      }
      r := Extract(n);
    }

    /** One byte of input into the buffer. */
    method Refill()
      requires bsLive < 24 && input != []
      modifies this
      ensures Stream() == old(Stream()) && |input| == |old(input)| - 1 && bsLive == old(bsLive) + 8
    {
      ShiftIn(bsBuff, bsLive, input[0]);
      bsBuff := (bsBuff as int * 0x100 + input[0]) % 0x1_0000_0000;
      bsLive := bsLive + 8;
      input := input[1..];
    }

    method Extract(n: nat) returns (r: Got)
      requires n <= bsLive <= 32
      modifies this
      ensures Valid() && r.Value? && n <= |old(Stream())|
      ensures r.v == ValueOf(old(Stream())[..n]) && Stream() == old(Stream())[n..]
    {
      TakeTop(bsBuff, bsLive, n);
      var v := And(Shr(bsBuff, bsLive - n), Pow2(n) - 1);
      ValueOfBits(v, n);
      assert Stream()[..n] == BitsOf(v, n);
      assert Stream()[n..] == BitsOf(bsBuff, bsLive - n) + BitsOfText(input);
      bsLive := bsLive - n;
      r := Value(v);
    }
  }
}
