/** The decoding tables of a code as values, and the undoing of the move-to-front
    coding of the selectors. */
module CodeTables {
  import opened Bits
  import opened BwtSpec
  import opened Huffman
  import opened MoveToFront

  // ------------------------------------------------------- tables from lengths

  /** The symbols below n of length l, in order. */
  function SymbolsOf(len: Text, l: int, n: nat): (s: seq<int>)
    requires n <= |len|
    ensures |s| == Count(len[..n], l)
  {
    if n == 0 then [] else
      assert len[..n][..n - 1] == len[..n - 1];
      if len[n - 1] == l then SymbolsOf(len, l, n - 1) + [n - 1] else SymbolsOf(len, l, n - 1)
  }

  /** The symbols of length less than l, shortest first. */
  function OrderBelow(len: Text, l: nat): (s: seq<int>)
    ensures |s| == Less(len, l)
  {
    if l == 0 then LessZeroLen(len); []
    else
      LessNext(len, l - 1);
      assert len[..|len|] == len;
      OrderBelow(len, l - 1) + SymbolsOf(len, l - 1, |len|)
  }

  lemma {:induction false} LessZeroLen(len: Text)
    ensures Less(len, 0) == 0
  {
    if len != [] { LessZeroLen(len[..|len| - 1]); }
  }

  lemma {:induction false} SymbolsOfAt(len: Text, l: int, n: nat, s: nat)
    requires s < n <= |len| && len[s] == l
    ensures Count(len[..s], l) < |SymbolsOf(len, l, n)|
    ensures SymbolsOf(len, l, n)[Count(len[..s], l)] == s
  {
    assert len[..n][..n - 1] == len[..n - 1];
    if s < n - 1 {
      SymbolsOfAt(len, l, n - 1, s);
    }
  }

  lemma {:induction false} OrderAt(len: Text, l: nat, s: nat)
    requires s < |len| && len[s] < l
    ensures LF(len, s) < |OrderBelow(len, l)| && OrderBelow(len, l)[LF(len, s)] == s
  {
    if len[s] == l - 1 {
      SymbolsOfAt(len, l - 1, |len|, s);
    } else {
      OrderAt(len, l - 1, s);
    }
  }

  /** The tables for a code, as values. */
  function MakeTables(len: Lengths): (t: Tables)
    ensures t.For(len)
  {
    var min, max := MinLen(len), MaxLen(len);
    var order := OrderBelow(len, 21);
    LessAllLen(len);
    forall s | 0 <= s < |len| ensures LF(len, s) < |order| && order[LF(len, s)] == s {
      OrderAt(len, 21, s);
    }
    Tables(min,
           seq(258, l requires 0 <= l => if min <= l <= max then First(len, l) + Count(len, l) - 1 else 0),
           seq(258, l requires 0 <= l => if min <= l <= max then First(len, l) - Less(len, l) else 0),
           seq(258, x requires 0 <= x => if x < |order| then order[x] else 0))
  }

  lemma {:induction false} LessAllLen(len: Text)
    requires forall i :: 0 <= i < |len| ==> len[i] <= 20
    ensures Less(len, 21) == |len|
  {
    if len != [] { LessAllLen(len[..|len| - 1]); }
  }

  // ------------------------------------------------------------- the selectors

  /** Undo the move-to-front coding of the selectors. */
  function UndoMtf(sel: seq<nat>, pos: Text): (s: seq<nat>)
    requires forall i :: 0 <= i < |sel| ==> sel[i] < |pos|
    ensures |s| == |sel|
  {
    if sel == [] then [] else [pos[sel[0]]] + UndoMtf(sel[1..], ToFront(pos, sel[0]))
  }

  lemma {:induction false} UndoMtfBound(sel: seq<nat>, pos: Text, n: nat)
    requires forall i :: 0 <= i < |sel| ==> sel[i] < |pos|
    requires forall k :: 0 <= k < |pos| ==> pos[k] < n
    ensures forall i :: 0 <= i < |sel| ==> UndoMtf(sel, pos)[i] < n
  {
    if sel != [] {
      var pos' := ToFront(pos, sel[0]);
      forall k | 0 <= k < |pos'| ensures pos'[k] < n {
        ToFrontAt(pos, sel[0], k);
      }
      UndoMtfBound(sel[1..], pos', n);
    }
  }

  function Identity(n: nat): (l: Text)
    requires n <= 256
    ensures |l| == n && forall k :: 0 <= k < n ==> l[k] == k
  {
    seq(n, k requires 0 <= k < n => k)
  }
}
