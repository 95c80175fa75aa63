/** Complete sets of code lengths as a tiling: with g the longest length, each
    code of k bits takes 2^(g-k) of the 2^g strings of g bits, shortest codes
    first, and bits may be read most or least significant first. */
module CodeSpace {
  import opened Bits

  // ------------------------------------------------------------ reversed bits

  /** The low n bits of v in reverse order. */
  function Rev(v: nat, n: nat): (r: nat)
    ensures r < Pow2(n)
  {
    if n == 0 then 0
    else if v % 2 == 1 then Pow2(n - 1) + Rev(v / 2, n - 1) else Rev(v / 2, n - 1)
  }

  lemma {:induction false} RevStep(v: nat, n: nat)
    requires n > 0
    ensures Pow2(n) == 2 * Pow2(n - 1)
    ensures v % 2 == 0 ==> Rev(v, n) == Rev(v / 2, n - 1)
    ensures v % 2 == 1 ==> Rev(v, n) == Pow2(n - 1) + Rev(v / 2, n - 1)
  {
  }

  lemma {:induction false} Pow2Zero(v: nat)
    ensures Pow2(0) == 1 && v % Pow2(0) == 0 && v / Pow2(0) == v && Rev(v, 0) == 0 && Pow2(1) == 2
  {
  }

  /** The low b bits come out on top. */
  lemma {:induction false} RevSplit(v: nat, a: nat, b: nat)
    ensures Rev(v, a + b) == Rev(v % Pow2(b), b) * Pow2(a) + Rev(Quotient(v, Pow2(b)), a)
    decreases b
  {
    hide Rev, Pow2;
    if b == 0 {
      Pow2Zero(v);
      Pow2Zero(0);
    } else {
      var m, p, low := Pow2(b - 1), Pow2(a), v % Pow2(b);
      RevStep(v, a + b);
      RevStep(low, b);
      RevSplit(v / 2, a, b - 1);
      HalfMod(v, m);
      DivDiv(v, 2, m);
      Pow2Add(a, b - 1);
      assert a + b - 1 == a + (b - 1);
      var r := Rev(v / 2 % m, b - 1);
      assert low / 2 == v / 2 % m && low % 2 == v % 2;
      Distribute(m, r, p);
    }
  }

  lemma {:induction false} Distribute(m: nat, r: nat, p: nat)
    ensures (m + r) * p == p * m + r * p
  {
  }

  /** The top bit comes out lowest. */
  lemma {:induction false} RevTop(bit: nat, r: nat, n: nat)
    requires n > 0 && bit < 2 && r < Pow2(n - 1)
    ensures Rev((if bit == 1 then Pow2(n - 1) else 0) + r, n) == 2 * Rev(r, n - 1) + bit
  {
    hide Rev, Pow2;
    var m := Pow2(n - 1);
    var x := (if bit == 1 then m else 0) + r;
    assert x == bit * m + r by { if bit == 1 { assert 1 * m == m; } else { assert 0 * m == 0; } }
    DivModUnique(x, m, bit, r);
    RevSplit(x, 1, n - 1);
    RevStep(bit, 1);
    Pow2Zero(0);
    Pow2Zero(bit / 2);
  }

  lemma {:induction false} RevRev(v: nat, n: nat)
    ensures Rev(Rev(v, n), n) == v % Pow2(n)
  {
    RevTwice(v, n);
  }

  lemma {:induction false} RevTwice(v: nat, n: nat)
    ensures Rev(Rev(v, n), n) == Remainder(v, Pow2(n))
  {
    hide Rev, Pow2, Remainder;
    if n == 0 {
      Pow2Zero(v);
      Pow2Zero(0);
      AndZero(v);
    } else {
      RevStep(v, n);
      RevTop(v % 2, Rev(v / 2, n - 1), n);
      RevTwice(v / 2, n - 1);
      HalfRemainder(v, Pow2(n - 1));
    }
  }

  lemma {:induction false} RevInjective(a: nat, b: nat, n: nat)
    requires a < Pow2(n) && b < Pow2(n) && Rev(a, n) == Rev(b, n)
    ensures a == b
  {
    RevRev(a, n);
    RevRev(b, n);
    SmallMod(a, Pow2(n));
    SmallMod(b, Pow2(n));
  }

  lemma {:induction false} SmallMod(a: nat, m: nat)
    requires a < m
    ensures a % m == a && a / m == 0
  {
  }

  /** A zero appended to the code adds a zero on top of its reverse. */
  lemma {:induction false} RevShift(v: nat, a: nat, b: nat)
    ensures Rev(v * Pow2(b), a + b) == Rev(v, a)
  {
    RevSplit(v * Pow2(b), a, b);
    DivModUnique(v * Pow2(b), Pow2(b), v, 0);
    RevZero(b);
  }

  lemma {:induction false} RevZero(n: nat)
    ensures Rev(0, n) == 0
  {
    if n > 0 { RevZero(n - 1); }
  }

  // ------------------------------------------------------------- the code space

  const BMAX: nat := 16

  /** How many codes there are of each length. */
  type Counts = c: seq<nat> | |c| == 17 witness seq(17, _ => 0)

  /** The number of k-bit strings that start with a code of at most k bits. */
  function UpTo(c: Counts, k: nat): nat
    requires k <= BMAX
  {
    if k == 0 then 0 else 2 * UpTo(c, k - 1) + c[k]
  }

  /** Where the codes of more than k bits begin, in g-bit strings. */
  function Used(c: Counts, g: nat, k: nat): nat
    requires k <= g <= BMAX
  {
    UpTo(c, k) * Pow2(g - k)
  }

  /** How many codes have at most k bits. */
  function Num(c: Counts, k: nat): nat
    requires k <= BMAX
  {
    if k == 0 then 0 else Num(c, k - 1) + c[k]
  }

  ghost predicate Complete(c: Counts, g: nat) {
    1 <= g <= BMAX && c[g] > 0 && UpTo(c, g) == Pow2(g)
  }

  lemma {:induction false} UsedStep(c: Counts, g: nat, k: nat)
    requires 1 <= k <= g <= BMAX
    ensures Used(c, g, k - 1) == 2 * UpTo(c, k - 1) * Pow2(g - k)
    ensures Used(c, g, k) == Used(c, g, k - 1) + c[k] * Pow2(g - k)
  {
    assert Pow2(g - (k - 1)) == 2 * Pow2(g - k);
    var x, p := UpTo(c, k - 1), Pow2(g - k);
    assert x * (2 * p) == 2 * x * p;
    assert (2 * x + c[k]) * p == 2 * x * p + c[k] * p;
  }

  lemma {:induction false} UsedMono(c: Counts, g: nat, j: nat, k: nat)
    requires j <= k <= g <= BMAX
    ensures Used(c, g, j) <= Used(c, g, k)
    decreases k
  {
    if j < k {
      UsedMono(c, g, j, k - 1);
      UsedStep(c, g, k);
    }
  }

  lemma {:induction false} UsedAll(c: Counts, g: nat)
    requires Complete(c, g)
    ensures Used(c, g, g) == Pow2(g) && Used(c, g, 0) == 0
    ensures forall k :: 0 <= k < g ==> Used(c, g, k) < Pow2(g)
  {
    assert Pow2(g - g) == 1;
    UsedStep(c, g, g);
    forall k | 0 <= k < g ensures Used(c, g, k) < Pow2(g) {
      UsedMono(c, g, k, g - 1);
    }
  }

  // ------------------------------------------------ the code at a given string

  /** The length of the code that string v starts with. */
  function LenFrom(c: Counts, g: nat, v: nat, k: nat): (r: nat)
    requires k <= g <= BMAX
    ensures k <= r <= g
    decreases g - k
  {
    if k == g || v < Used(c, g, k) then k else LenFrom(c, g, v, k + 1)
  }

  function LenAt(c: Counts, g: nat, v: nat): (k: nat)
    requires g <= BMAX
    ensures k <= g
  {
    LenFrom(c, g, v, 0)
  }

  lemma {:induction false} LenFromIs(c: Counts, g: nat, v: nat, k: nat)
    requires k <= g <= BMAX && v < Used(c, g, g) && (k > 0 ==> Used(c, g, k - 1) <= v)
    ensures var r := LenFrom(c, g, v, k); v < Used(c, g, r) && (r > 0 ==> Used(c, g, r - 1) <= v)
    decreases g - k
  {
    if k < g && v >= Used(c, g, k) {
      LenFromIs(c, g, v, k + 1);
    }
  }

  lemma {:induction false} LenAtIs(c: Counts, g: nat, v: nat)
    requires Complete(c, g) && v < Pow2(g)
    ensures 1 <= LenAt(c, g, v) <= g
    ensures Used(c, g, LenAt(c, g, v) - 1) <= v < Used(c, g, LenAt(c, g, v))
  {
    hide Used;
    UsedAll(c, g);
    LenFromIs(c, g, v, 0);
  }

  lemma {:induction false} LenUnique(c: Counts, g: nat, v: nat, k: nat)
    requires Complete(c, g) && 1 <= k <= g && Used(c, g, k - 1) <= v < Used(c, g, k)
    ensures v < Pow2(g) && LenAt(c, g, v) == k
  {
    hide Used, LenAt;
    UsedAll(c, g);
    UsedMono(c, g, k, g);
    LenAtIs(c, g, v);
    var r := LenAt(c, g, v);
    if r < k { UsedMono(c, g, r, k - 1); }
    if k < r { UsedMono(c, g, k, r - 1); }
  }

  /** Longer codes lie above where the shorter ones end, and only they do. */
  lemma {:induction false} LongerAbove(c: Counts, g: nat, v: nat, k: nat)
    requires Complete(c, g) && v < Pow2(g) && k <= g
    ensures LenAt(c, g, v) > k <==> v >= Used(c, g, k)
  {
    hide Used, LenAt;
    LenAtIs(c, g, v);
    var r := LenAt(c, g, v);
    if r > k { UsedMono(c, g, k, r - 1); } else { UsedMono(c, g, r, k); }
  }

  /** The first d bits of string v. */
  function Block(g: nat, v: nat, d: nat): nat
    requires d <= g
  {
    Quotient(v, Pow2(g - d))
  }

  function Quotient(a: nat, m: nat): nat
    requires m > 0
  {
    a / m
  }

  /** The number of the code that string v starts with, in order of length and
      then of value. */
  ghost function SlotAt(c: Counts, g: nat, v: nat): int
    requires g <= BMAX && 1 <= LenAt(c, g, v) <= g
  {
    var k := LenAt(c, g, v);
    Num(c, k - 1) + Block(g, v, k) - 2 * UpTo(c, k - 1)
  }

  lemma {:induction false} BlockAbove(a: nat, v: nat, p: nat)
    requires p > 0
    ensures a * p <= v <==> a <= v / p
  {
    assert v == v / p * p + v % p;
    MulLess(v / p, a, p);
    MulLess(a, v / p, p);
  }

  /** The code's own value, among those of its length. */
  lemma {:induction false} CodeAt(c: Counts, g: nat, v: nat)
    requires Complete(c, g) && v < Pow2(g)
    ensures var k := LenAt(c, g, v);
      1 <= k <= g && 2 * UpTo(c, k - 1) <= Block(g, v, k) < 2 * UpTo(c, k - 1) + c[k]
      && Num(c, k - 1) <= SlotAt(c, g, v) < Num(c, k)
  {
    LenAtIs(c, g, v);
    hide LenAt;
    var k := LenAt(c, g, v);
    UsedStep(c, g, k);
    BlockAbove(2 * UpTo(c, k - 1), v, Pow2(g - k));
    BlockAbove(UpTo(c, k), v, Pow2(g - k));
  }

  /** Strings that agree on the bits of a code start with that code. */
  lemma {:induction false} SameCode(c: Counts, g: nat, v: nat, v': nat)
    requires Complete(c, g) && v < Pow2(g) && v' < Pow2(g)
    requires LenAt(c, g, v) <= g && Block(g, v, LenAt(c, g, v)) == Block(g, v', LenAt(c, g, v))
    ensures LenAt(c, g, v') == LenAt(c, g, v) >= 1 && SlotAt(c, g, v') == SlotAt(c, g, v)
  {
    CodeAt(c, g, v);
    hide LenAt;
    var k := LenAt(c, g, v);
    UsedStep(c, g, k);
    BlockAbove(2 * UpTo(c, k - 1), v', Pow2(g - k));
    BlockAbove(UpTo(c, k), v', Pow2(g - k));
    LenUnique(c, g, v', k);
  }

  /** A prefix of a prefix. */
  lemma {:induction false} BlockCoarser(g: nat, v: nat, d: nat, e: nat)
    requires d <= e <= g
    ensures Block(g, v, d) == Block(g, v, e) / Pow2(e - d)
  {
    DivDiv(v, Pow2(g - e), Pow2(e - d));
    Pow2Add(g - e, e - d);
  }

  lemma {:induction false} BlockSame(g: nat, v: nat, v': nat, d: nat, e: nat)
    requires d <= e <= g && Block(g, v, e) == Block(g, v', e)
    ensures Block(g, v, d) == Block(g, v', d)
  {
    BlockCoarser(g, v, d, e);
    BlockCoarser(g, v', d, e);
  }

  /** A code longer than d leaves only longer codes with its first d bits. */
  lemma {:induction false} BlockDeep(c: Counts, g: nat, v: nat, v': nat, d: nat)
    requires Complete(c, g) && v < Pow2(g) && v' < Pow2(g) && d <= g && Block(g, v, d) == Block(g, v', d)
    ensures LenAt(c, g, v) > d <==> LenAt(c, g, v') > d
  {
    DeepOne(c, g, v, v', d);
    DeepOne(c, g, v', v, d);
  }

  lemma {:induction false} DeepOne(c: Counts, g: nat, v: nat, v': nat, d: nat)
    requires Complete(c, g) && v < Pow2(g) && v' < Pow2(g) && d <= g && Block(g, v, d) == Block(g, v', d)
    ensures LenAt(c, g, v) <= d ==> LenAt(c, g, v') <= d
  {
    hide LenAt, Block;
    LenAtIs(c, g, v);
    if LenAt(c, g, v) <= d {
      BlockSame(g, v, v', LenAt(c, g, v), d);
      SameCode(c, g, v, v');
    }
  }

  /** Where block b of depth d begins and ends. */
  lemma {:induction false} BlockIs(g: nat, v: nat, d: nat, b: nat)
    requires d <= g
    ensures Block(g, v, d) == b <==> b * Pow2(g - d) <= v < (b + 1) * Pow2(g - d)
  {
    BlockAbove(b, v, Pow2(g - d));
    BlockAbove(b + 1, v, Pow2(g - d));
  }

  lemma {:induction false} BlockBound(g: nat, v: nat, d: nat)
    requires d <= g
    ensures v < Pow2(g) <==> Block(g, v, d) < Pow2(d)
  {
    Pow2Add(d, g - d);
    BlockAbove(Pow2(d), v, Pow2(g - d));
  }
}
