/** Sequences of bits and the numbers they spell, most significant bit first. */
module BitString {
  import opened Bits

  type Bit = x: int | 0 <= x < 2

  /** The low n bits of v, most significant first. */
  function BitsOf(v: nat, n: nat): (b: seq<Bit>)
    ensures |b| == n
  {
    if n == 0 then [] else BitsOf(v / 2, n - 1) + [v % 2]
  }

  function ValueOf(b: seq<Bit>): (v: nat)
    ensures v < Pow2(|b|)
  {
    if b == [] then 0 else 2 * ValueOf(b[..|b| - 1]) + b[|b| - 1]
  }

  lemma {:induction false} ValueOfBits(v: nat, n: nat)
    requires v < Pow2(n)
    ensures ValueOf(BitsOf(v, n)) == v
  {
    if n != 0 {
      ValueOfBits(v / 2, n - 1);
      assert BitsOf(v, n)[..n - 1] == BitsOf(v / 2, n - 1);
    }
  }

  /** A prefix of the bits is the value shifted right. */
  lemma {:induction false} ValuePrefix(v: nat, n: nat, k: nat)
    requires v < Pow2(n) && k <= n
    ensures ValueOf(BitsOf(v, n)[..k]) == v / Pow2(n - k)
    decreases n - k
  {
    if k == n {
      assert BitsOf(v, n)[..n] == BitsOf(v, n);
      ValueOfBits(v, n);
      assert v / 1 == v;
    } else {
      ValuePrefix(v / 2, n - 1, k);
      assert BitsOf(v, n)[..k] == BitsOf(v / 2, n - 1)[..k];
      DivDiv(v, 2, Pow2(n - 1 - k));
      assert Pow2(n - k) == 2 * Pow2(n - 1 - k);
    }
  }

  lemma {:induction false} BitsOfValue(b: seq<Bit>)
    ensures BitsOf(ValueOf(b), |b|) == b
  {
    if b != [] {
      BitsOfValue(b[..|b| - 1]);
    }
  }

  lemma {:induction false} ValueMore(bits: seq<Bit>, n: nat)
    requires n < |bits|
    ensures ValueOf(bits[..n + 1]) == 2 * ValueOf(bits[..n]) + bits[n]
  {
    assert bits[..n + 1][..n] == bits[..n];
  }
}
