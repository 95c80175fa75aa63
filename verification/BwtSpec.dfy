/** The Burrows-Wheeler transform as sorted rotations, and why following the
    last-to-first mapping backwards recovers the text. */
module BwtSpec {
  import opened Bits
  import opened Permutations

  type Text = seq<Byte>

  // ---------------------------------------------------------------- the order

  predicate LexLe(a: Text, b: Text) {
    a == [] || (b != [] && (a[0] < b[0] || (a[0] == b[0] && LexLe(a[1..], b[1..]))))
  }

  lemma {:induction false} LexRefl(a: Text)
    ensures LexLe(a, a)
  {
    if a != [] { LexRefl(a[1..]); }
  }

  lemma {:induction false} LexAntisym(a: Text, b: Text)
    requires LexLe(a, b) && LexLe(b, a)
    ensures a == b
  {
    if a != [] && b != [] {
      LexAntisym(a[1..], b[1..]);
      assert a == [a[0]] + a[1..] && b == [b[0]] + b[1..];
    }
  }

  lemma {:induction false} LexTrans(a: Text, b: Text, c: Text)
    requires LexLe(a, b) && LexLe(b, c)
    ensures LexLe(a, c)
  {
    if a != [] && a[0] == b[0] == c[0] { LexTrans(a[1..], b[1..], c[1..]); }
  }

  lemma {:induction false} LexTotal(a: Text, b: Text)
    ensures LexLe(a, b) || LexLe(b, a)
  {
    if a != [] && b != [] { LexTotal(a[1..], b[1..]); }
  }

  lemma {:induction false} LexPrefix(a: Text, b: Text, m: nat)
    requires LexLe(a, b) && |a| == |b| && m <= |a|
    ensures LexLe(a[..m], b[..m])
  {
    if m != 0 && a[0] == b[0] {
      LexPrefix(a[1..], b[1..], m - 1);
      assert a[..m][1..] == a[1..][..m - 1] && b[..m][1..] == b[1..][..m - 1];
    }
  }

  ghost predicate Sorted(rows: seq<Text>) {
    forall i, j :: 0 <= i < j < |rows| ==> LexLe(rows[i], rows[j])
  }

  lemma {:induction false} SortedHead(rows: seq<Text>, x: Text)
    requires Sorted(rows) && x in rows
    ensures LexLe(rows[0], x)
  {
    LexRefl(x);
  }

  lemma {:induction false} SortedUnique(a: seq<Text>, b: seq<Text>)
    requires Sorted(a) && Sorted(b) && multiset(a) == multiset(b)
    ensures a == b
  {
    if a == [] {
      assert |multiset(b)| == 0;
    } else {
      SameHeads(a, b);
      RestOf(a);
      RestOf(b);
      SortedUnique(a[1..], b[1..]);
    }
  }

  lemma {:induction false} RestOf(a: seq<Text>)
    requires Sorted(a) && a != []
    ensures Sorted(a[1..]) && a == [a[0]] + a[1..] && multiset(a[1..]) == multiset(a) - multiset{a[0]}
  {
    assert a == [a[0]] + a[1..];
  }

  lemma {:induction false} SameHeads(a: seq<Text>, b: seq<Text>)
    requires Sorted(a) && Sorted(b) && multiset(a) == multiset(b) && a != []
    ensures b != [] && a[0] == b[0]
  {
    assert a[0] in multiset(b);
    assert b[0] in multiset(a);
    SortedHead(b, a[0]);
    SortedHead(a, b[0]);
    LexAntisym(a[0], b[0]);
  }

  // ------------------------------------------------------------ the transform

  /** s rotated left by k places. */
  function Rot(s: Text, k: nat): (r: Text)
    requires k <= |s|
    ensures |r| == |s|
  {
    s[k..] + s[..k]
  }

  function Rows(s: Text, index: seq<nat>): (rows: seq<Text>)
    requires |index| == |s| && InRange(index)
    ensures |rows| == |s| && forall r :: 0 <= r < |s| ==> rows[r] == Rot(s, index[r])
  {
    seq(|s|, r requires 0 <= r < |s| => Rot(s, index[r]))
  }

  /** index lists the rotations of s in lexicographic order. */
  ghost predicate SortsRotations(s: Text, index: seq<nat>) {
    |index| == |s| && IsPerm(index) && Sorted(Rows(s, index))
  }

  ghost predicate LastColumn(s: Text, index: seq<nat>, last: Text)
    requires |index| == |s| && InRange(index)
  {
    |last| == |s| && forall r :: 0 <= r < |s| ==> last[r] == Rot(s, index[r])[|s| - 1]
  }

  /** (last, orig) is a Burrows-Wheeler transform of s: the last column of the
      sorted rotations, and a row that holds s itself. */
  ghost predicate IsTransform(s: Text, last: Text, orig: nat) {
    && orig < |s| == |last|
    && exists index :: SortsRotations(s, index) && LastColumn(s, index, last) && Rot(s, index[orig]) == s
  }

  // ----------------------------------------------- the last-to-first mapping

  function Count(l: Text, c: int): nat {
    if l == [] then 0 else Count(l[..|l| - 1], c) + (if l[|l| - 1] == c then 1 else 0)
  }

  function Less(l: Text, c: int): nat {
    if l == [] then 0 else Less(l[..|l| - 1], c) + (if l[|l| - 1] < c then 1 else 0)
  }

  lemma {:induction false} LessStep(l: Text, c: int, d: int)
    requires c < d
    ensures Less(l, c) + Count(l, c) <= Less(l, d)
    ensures Less(l, d) <= |l|
  {
    if l != [] { LessStep(l[..|l| - 1], c, d); }
  }

  lemma {:induction false} LessNext(l: Text, c: int)
    ensures Less(l, c + 1) == Less(l, c) + Count(l, c)
  {
    if l != [] { LessNext(l[..|l| - 1], c); }
  }

  lemma {:induction false} CountMono(l: Text, c: int, i: nat, j: nat)
    requires i <= j <= |l|
    ensures Count(l[..i], c) <= Count(l[..j], c)
    ensures i < j && l[i] == c ==> Count(l[..i], c) < Count(l[..j], c)
    decreases j
  {
    if i < j {
      assert l[..j][..j - 1] == l[..j - 1];
      CountMono(l, c, i, j - 1);
    }
  }

  lemma {:induction false} LFBucket(l: Text, k: nat)
    requires k < |l|
    ensures Less(l, l[k]) + Count(l[..k], l[k]) < Less(l, l[k]) + Count(l, l[k]) <= |l|
  {
    var c: int := l[k];
    CountMono(l, c, k, |l|);
    assert l[..|l|] == l;
    LessStep(l, c, c + 1);
  }

  /** Where position k lands when the characters are stably sorted. */
  function LF(l: Text, k: nat): (r: nat)
    requires k < |l|
    ensures r < |l|
  {
    LFBucket(l, k);
    Less(l, l[k]) + Count(l[..k], l[k])
  }

  /** LF orders positions by character, then by place. */
  lemma {:induction false} LFOrder(l: Text, i: nat, j: nat)
    requires i < |l| && j < |l|
    ensures l[i] < l[j] ==> LF(l, i) < LF(l, j)
    ensures l[i] == l[j] && i < j ==> LF(l, i) < LF(l, j)
  {
    LFBucket(l, i);
    if l[i] < l[j] {
      LessStep(l, l[i], l[j]);
    } else if l[i] == l[j] && i < j {
      CountMono(l, l[i], i, j);
    }
  }

  function LFSeq(l: Text): (p: seq<nat>)
    ensures |p| == |l| && forall k :: 0 <= k < |l| ==> p[k] == LF(l, k)
  {
    seq(|l|, k requires 0 <= k < |l| => LF(l, k))
  }

  lemma {:induction false} LFIsPerm(l: Text)
    ensures IsPerm(LFSeq(l))
  {
    forall i, j | 0 <= i < j < |l| ensures LF(l, i) != LF(l, j) {
      LFOrder(l, i, j);
      LFOrder(l, j, i);
    }
  }

  /** The inverse mapping: the position whose character sorts to row r. */
  ghost function Back(l: Text): (p: seq<nat>)
    ensures |p| == |l| && IsPerm(p)
    ensures forall k :: 0 <= k < |l| ==> p[LF(l, k)] == k
    ensures forall r :: 0 <= r < |l| ==> LF(l, p[r]) == r
  {
    LFIsPerm(l);
    var f := LFSeq(l);
    var p := Inverse(f);
    assert forall k :: 0 <= k < |l| ==> p[f[k]] == k;
    assert forall r :: 0 <= r < |l| ==> f[p[r]] == r;
    p
  }

  /** The k-th byte read when walking back from orig. */
  ghost function Walk(l: Text, orig: nat, k: nat): Byte
    requires orig < |l|
  {
    l[Iter(Back(l), orig, k + 1)]
  }

  // --------------------------------------------------------- the inverse theorem

  function Spin(row: Text): (r: Text)
    requires row != []
    ensures |r| == |row|
  {
    [row[|row| - 1]] + row[..|row| - 1]
  }

  function SpinAll(rows: seq<Text>): (r: seq<Text>)
    requires forall i :: 0 <= i < |rows| ==> rows[i] != []
    ensures |r| == |rows| && forall i :: 0 <= i < |rows| ==> r[i] == Spin(rows[i])
  {
    seq(|rows|, i requires 0 <= i < |rows| => Spin(rows[i]))
  }

  /** Spinning rows of equal length right and stably sorting them by their new
      first character leaves them sorted. */
  lemma {:induction false} SpunSorted(rows: seq<Text>, last: Text, n: nat)
    requires Sorted(rows) && n > 0 && |last| == |rows|
    requires forall r :: 0 <= r < |rows| ==> |rows[r]| == n && rows[r][n - 1] == last[r]
    ensures Sorted(Select(SpinAll(rows), Back(last)))
  {
    var p := Back(last);
    var b := Select(SpinAll(rows), p);
    forall i, j | 0 <= i < j < |rows| ensures LexLe(b[i], b[j]) {
      SpunPair(rows, last, n, p[i], p[j]);
    }
  }

  lemma {:induction false} SpunPair(rows: seq<Text>, last: Text, n: nat, x: nat, y: nat)
    requires Sorted(rows) && n > 0 && |last| == |rows| && x < |rows| && y < |rows|
    requires forall r :: 0 <= r < |rows| ==> |rows[r]| == n && rows[r][n - 1] == last[r]
    requires LF(last, x) < LF(last, y)
    ensures LexLe(Spin(rows[x]), Spin(rows[y]))
  {
    LFOrder(last, y, x);
    if last[x] == last[y] {
      assert x < y;
      LexPrefix(rows[x], rows[y], n - 1);
      assert Spin(rows[x])[1..] == rows[x][..n - 1] && Spin(rows[y])[1..] == rows[y][..n - 1];
    }
  }

  function Pred(k: nat, n: nat): (r: nat)
    requires k < n
    ensures r < n
  {
    if k == 0 then n - 1 else k - 1
  }

  lemma {:induction false} SpinRot(s: Text, k: nat)
    requires k < |s|
    ensures Spin(Rot(s, k)) == Rot(s, Pred(k, |s|))
  {
    var n := |s|;
    var r := Rot(s, k);
    if k == 0 {
      assert r == s;
    } else {
      assert r[n - 1] == s[k - 1];
      assert r[..n - 1] == s[k..] + s[..k - 1];
      assert s[k - 1..] == [s[k - 1]] + s[k..];
    }
  }

  lemma {:induction false} SpinBack(s: Text, k: nat)
    requires 0 < k <= |s|
    ensures Spin(Rot(s, k)) == Rot(s, k - 1)
  {
    if k < |s| {
      SpinRot(s, k);
    } else {
      SpinRot(s, 0);
      assert Rot(s, |s|) == s == Rot(s, 0);
    }
  }

  /** Rotating every row right by one only rearranges the rows. */
  lemma {:induction false} SpunSame(s: Text, index: seq<nat>)
    requires IsPerm(index) && |index| == |s|
    ensures multiset(SpinAll(Rows(s, index))) == multiset(Rows(s, index))
  {
    var n := |s|;
    var rows := Rows(s, index);
    var all := seq(n, k requires 0 <= k < n => Rot(s, k));
    var index' := seq(n, r requires 0 <= r < n => Pred(index[r], n));
    assert IsPerm(index');
    assert rows == Select(all, index);
    SelectMultiset(all, index);
    hide Rot, IsPerm, Spin;
    forall r | 0 <= r < n ensures SpinAll(rows)[r] == Select(all, index')[r] {
      SpinRot(s, index[r]);
    }
    assert SpinAll(rows) == Select(all, index');
    SelectMultiset(all, index');
  }

  /** Row r of the sorted rotations is row Back(r) rotated right by one. */
  lemma {:induction false} BackSpins(s: Text, index: seq<nat>, last: Text)
    requires SortsRotations(s, index) && LastColumn(s, index, last) && s != []
    ensures forall r :: 0 <= r < |s| ==> Rows(s, index)[r] == Spin(Rows(s, index)[Back(last)[r]])
  {
    var rows := Rows(s, index);
    SpunSame(s, index);
    SelectMultiset(SpinAll(rows), Back(last));
    SpunSorted(rows, last, |s|);
    SortedUnique(rows, Select(SpinAll(rows), Back(last)));
  }

  lemma {:induction false} SpinInjective(a: Text, b: Text)
    requires a != [] && b != [] && Spin(a) == Spin(b)
    ensures a == b
  {
    assert a[..|a| - 1] == Spin(a)[1..] && b[..|b| - 1] == Spin(b)[1..];
    assert a == a[..|a| - 1] + [a[|a| - 1]] && b == b[..|b| - 1] + [b[|b| - 1]];
  }

  /** Walking k steps from the row holding s reaches s rotated left k. */
  lemma {:induction false} WalkRows(s: Text, rows: seq<Text>, p: seq<nat>, orig: nat, k: nat)
    requires |rows| == |p| == |s| && InRange(p) && orig < |s| && k <= |s|
    requires forall r :: 0 <= r < |rows| ==> |rows[r]| == |s|
    requires forall r :: 0 <= r < |rows| ==> rows[r] == Spin(rows[p[r]])
    requires rows[orig] == s
    ensures rows[Iter(p, orig, k)] == Rot(s, k)
  {
    if k == 0 {
      assert Rot(s, 0) == s;
    } else {
      var r := Iter(p, orig, k - 1);
      WalkRows(s, rows, p, orig, k - 1);
      SpinBack(s, k);
      SpinInjective(Rot(s, k), rows[p[r]]);
    }
  }

  lemma {:induction false} RotLast(s: Text, k: nat)
    requires k < |s|
    ensures Rot(s, k + 1)[|s| - 1] == s[k]
  {
  }

  /** The inverse transform: walking back from orig spells out s, repeated
      rotations included. */
  lemma {:induction false} WalkRecovers(s: Text, last: Text, orig: nat, k: nat)
    requires IsTransform(s, last, orig) && k < |s|
    ensures Walk(last, orig, k) == s[k]
  {
    var index :| SortsRotations(s, index) && LastColumn(s, index, last) && Rot(s, index[orig]) == s;
    BackSpins(s, index, last);
    WalkRows(s, Rows(s, index), Back(last), orig, k + 1);
    RotLast(s, k);
  }

  // ------------------------------------------------------- transforms exist

  /** done lists distinct rotations below k in order. */
  ghost predicate SortedSome(s: Text, done: seq<nat>, k: nat)
    requires k <= |s|
  {
    && Distinct(done)
    && (forall i :: 0 <= i < |done| ==> done[i] < k)
    && forall i, j :: 0 <= i < j < |done| ==> LexLe(Rot(s, done[i]), Rot(s, done[j]))
  }

  lemma {:induction false} AppendRow(s: Text, done: seq<nat>, k: nat, bound: nat)
    requires k < bound <= |s| && SortedSome(s, done, bound) && k !in done
    requires done == [] || LexLe(Rot(s, done[|done| - 1]), Rot(s, k))
    ensures SortedSome(s, done + [k], bound)
  {
    forall i | 0 <= i < |done| ensures LexLe(Rot(s, done[i]), Rot(s, k)) {
      if i < |done| - 1 {
        LexTrans(Rot(s, done[i]), Rot(s, done[|done| - 1]), Rot(s, k));
      }
    }
  }

  /** Insert rotation k into a sorted list of rotations. */
  lemma {:induction false} InsertRow(s: Text, done: seq<nat>, k: nat, bound: nat) returns (more: seq<nat>)
    requires k < bound <= |s| && SortedSome(s, done, bound) && k !in done
    ensures SortedSome(s, more, bound) && |more| == |done| + 1
    ensures multiset(more) == multiset(done) + multiset{k}
    decreases |done|
  {
    if done == [] || LexLe(Rot(s, done[|done| - 1]), Rot(s, k)) {
      AppendRow(s, done, k, bound);
      more := done + [k];
    } else {
      var init, top := done[..|done| - 1], done[|done| - 1];
      assert done == init + [top];
      LexTotal(Rot(s, top), Rot(s, k));
      var rest := InsertRow(s, init, k, bound);
      more := rest + [top];
      assert top !in multiset(rest);
      var last := rest[|rest| - 1];
      assert last in multiset(rest);
      if last != k {
        assert last in multiset(init);
        var i :| 0 <= i < |init| && init[i] == last;
      }
      AppendRow(s, rest, top, bound);
    }
  }

  lemma {:induction false} SortRows(s: Text, k: nat) returns (index: seq<nat>)
    requires k <= |s|
    ensures SortedSome(s, index, k) && |index| == k
  {
    if k == 0 {
      index := [];
    } else {
      var done := SortRows(s, k - 1);
      index := InsertRow(s, done, k - 1, k);
    }
  }

  /** Every nonempty text has a transform. */
  lemma {:induction false} TransformExists(s: Text) returns (last: Text, orig: nat)
    requires s != []
    ensures IsTransform(s, last, orig)
  {
    var n := |s|;
    var index := SortRows(s, n);
    last := seq(n, r requires 0 <= r < n => Rot(s, index[r])[n - 1]);
    orig := IndexOf(index, 0);
    assert Rot(s, index[orig]) == s;
    assert SortsRotations(s, index) && LastColumn(s, index, last);
  }
}
