/** Randomised blocks: single bytes of the block, at distances that a table gives in turn,
    have their lowest bit toggled. */
module Randomise {
  import opened Bits

  /** BZ2_rNums: what counts of it is that its numbers are not too small. */
  type RandNums = s: seq<nat> | |s| == 512 && (forall i :: 0 <= i < 512 ==> s[i] >= 2) witness seq(512, _ => 2)

  // ------------------------------------------------------------ which are toggled

  /** The distances before the i-th added up, the table read in a circle. */
  function Start(rNums: RandNums, i: nat): nat {
    if i == 0 then 0 else Start(rNums, i - 1) + rNums[(i - 1) % 512]
  }

  /** Of the bytes up to the next start it is the last but one. */
  ghost predicate Toggled(rNums: RandNums, k: nat) {
    exists i: nat :: i > 0 && k + 2 == Start(rNums, i)
  }

  function Toggle(c: Byte): Byte {
    XorBound(c, 1, 8);
    Pow2Values();
    Xor(c, 1)
  }

  // ----------------------------------------------------------------- the countdown

  datatype Rand = Rand(toGo: int, pos: nat)

  /** BZ_RAND_UPD_MASK */
  function NextRand(rNums: RandNums, r: Rand): (r': Rand)
    requires r.pos < 512
    ensures r'.pos < 512
  {
    if r.toGo == 0 then Rand(rNums[r.pos] - 1, if r.pos + 1 == 512 then 0 else r.pos + 1)
    else r.(toGo := r.toGo - 1)
  }

  function RandAfter(rNums: RandNums, k: nat): (r: Rand)
    ensures r.pos < 512
  {
    if k == 0 then Rand(0, 0) else NextRand(rNums, RandAfter(rNums, k - 1))
  }

  /** c ^ BZ_RAND_MASK */
  function Mask(r: Rand, c: Byte): Byte {
    XorBound(c, 1, 8);
    Pow2Values();
    Xor(c, if r.toGo == 1 then 1 else 0)
  }

  lemma {:induction false} StartStep(rNums: RandNums, i: nat)
    ensures Start(rNums, i + 1) == Start(rNums, i) + rNums[i % 512] >= Start(rNums, i) + 2
  {
  }

  lemma {:induction false} StartLess(rNums: RandNums, i: nat, j: nat)
    requires i < j
    ensures Start(rNums, i) + 2 <= Start(rNums, j)
    decreases j
  {
    StartStep(rNums, j - 1);
    if i < j - 1 { StartLess(rNums, i, j - 1); }
  }

  lemma {:induction false} NextPlace(i: nat)
    ensures (i + 1) % 512 == if i % 512 + 1 == 512 then 0 else i % 512 + 1
  {
  }

  /** j + 1 bytes after the i-th start the countdown is j + 1 below its number. */
  lemma {:induction false} Counted(rNums: RandNums, i: nat, j: nat)
    requires j < rNums[i % 512]
    ensures RandAfter(rNums, Start(rNums, i) + j + 1) == Rand(rNums[i % 512] - 1 - j, (i + 1) % 512)
    decreases i, j
  {
    NextPlace(i);
    if j > 0 {
      Counted(rNums, i, j - 1);
      assert Start(rNums, i) + j + 1 - 1 == Start(rNums, i) + (j - 1) + 1;
    } else if i > 0 {
      var n := rNums[(i - 1) % 512];
      Counted(rNums, i - 1, n - 1);
      StartStep(rNums, i - 1);
      assert Start(rNums, i) == Start(rNums, i - 1) + (n - 1) + 1;
    }
  }

  /** The start before byte k. */
  lemma {:induction false} Before(rNums: RandNums, k: nat) returns (i: nat, j: nat)
    ensures k == Start(rNums, i) + j && j < rNums[i % 512]
  {
    i, j := 0, 0;
    if k > 0 {
      i, j := Before(rNums, k - 1);
      StartStep(rNums, i);
      j := j + 1;
      if j == rNums[i % 512] { i, j := i + 1, 0; }
    }
  }

  /** The mask toggles exactly those bytes. */
  lemma {:induction false} MaskToggles(rNums: RandNums, k: nat, c: Byte)
    ensures Mask(RandAfter(rNums, k + 1), c) == if Toggled(rNums, k) then Toggle(c) else c
  {
    hide RandAfter, Start, Xor;
    var i, j := Before(rNums, k);
    Counted(rNums, i, j);
    StartStep(rNums, i);
    NoXor(c);
    var next := i + 1;
    if j + 2 == rNums[i % 512] {
      assert k + 2 == Start(rNums, next);
    }
    if n: nat :| n > 0 && k + 2 == Start(rNums, n) {
      if n < next {
        if n < i { StartLess(rNums, n, i); }
      } else if n > next {
        StartLess(rNums, next, n);
      }
    }
  }

  lemma {:induction false} NoXor(c: nat)
    ensures Xor(c, 0) == c
  {
  }
}
