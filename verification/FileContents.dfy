/** A file of the ROM file system as its reader and its writer see it: one string
    of bytes held in blocks of fixed size, and the length its inode gives. */
module FileContents {

  const FBLOCK_DATA: nat := 4080

  type Bytes = seq<int>

  /** What the blocks hold, one after another, and how many bytes are the file's. */
  datatype File = File(data: Bytes, size: nat)

  function Zeros(n: nat): (z: Bytes)
    ensures |z| == n
  {
    seq(n, _ => 0)
  }

  predicate Holds(f: File) {
    f.size <= |f.data|
  }

  function Contents(f: File): Bytes
    requires Holds(f)
  {
    f.data[..f.size]
  }

  function Concat(s: seq<Bytes>): Bytes {
    if s == [] then [] else Concat(s[..|s| - 1]) + s[|s| - 1]
  }

  // ------------------------------------------------------------------- pieces

  /** Every piece is one block long. */
  predicate Full(pieces: seq<Bytes>) {
    forall k :: 0 <= k < |pieces| ==> |pieces[k]| == FBLOCK_DATA
  }

  lemma {:induction false} ConcatLength(pieces: seq<Bytes>)
    requires Full(pieces)
    ensures |Concat(pieces)| == FBLOCK_DATA * |pieces|
  {
    if pieces != [] { ConcatLength(pieces[..|pieces| - 1]); }
  }

  /** Bytes a to b of block k. */
  lemma {:induction false} PieceOf(pieces: seq<Bytes>, k: nat, a: nat, b: nat)
    requires Full(pieces) && k < |pieces| && a <= b <= FBLOCK_DATA
    ensures FBLOCK_DATA * k + b <= |Concat(pieces)|
    ensures Concat(pieces)[FBLOCK_DATA * k + a..FBLOCK_DATA * k + b] == pieces[k][a..b]
  {
    var init := pieces[..|pieces| - 1];
    ConcatLength(init);
    if k < |pieces| - 1 {
      PieceOf(init, k, a, b);
      assert init[k] == pieces[k];
      assert Concat(pieces)[..|Concat(init)|] == Concat(init);
    }
  }

  lemma {:induction false} ConcatMore(s: seq<Bytes>, b: Bytes)
    ensures Concat(s + [b]) == Concat(s) + b
  {
    assert (s + [b])[..|s|] == s;
  }

  // ------------------------------------------------------------------- writing

  /** n bytes rounded up to whole blocks. */
  function WholeBlocks(n: nat): (w: nat)
    ensures w % FBLOCK_DATA == 0 && n <= w < n + FBLOCK_DATA
  {
    (n + FBLOCK_DATA - 1) / FBLOCK_DATA * FBLOCK_DATA
  }

  /** buf put at s, with blocks of zeros added as far as it needs them. */
  function Put(data: Bytes, s: nat, buf: Bytes): (r: Bytes)
    requires s <= |data|
    ensures |r| == if s + |buf| <= |data| then |data| else WholeBlocks(s + |buf|)
  {
    var end := s + |buf|;
    data[..s] + buf + if end <= |data| then data[end..] else Zeros(WholeBlocks(end) - end)
  }

  /** A position in the last block, or just past it, or at the start of a file with
      no more than a block. */
  predicate AtEnd(f: File, p: nat) {
    && |f.data| % FBLOCK_DATA == 0 && p <= |f.data|
    && (p > |f.data| - FBLOCK_DATA || (p == 0 && |f.data| <= FBLOCK_DATA))
  }

  /** Where the first byte goes: a block that the last call filled is still the one
      at hand. */
  function Start(f: File, p: nat): nat
    requires AtEnd(f, p)
  {
    if f.data != [] && p == |f.data| then p - FBLOCK_DATA else p
  }

  function AtHand(f: File): Bytes {
    if f.data == [] then Zeros(FBLOCK_DATA) else f.data
  }

  /** The file that crfs_write leaves. */
  function Extended(f: File, p: nat, buf: Bytes): File
    requires AtEnd(f, p)
  {
    File(Put(AtHand(f), Start(f, p), buf), if p + |buf| > f.size then p + |buf| else f.size)
  }

  /** buf was added to the end of the file. */
  predicate Added(f: File, f': File, buf: Bytes)
    requires Holds(f)
  {
    Holds(f') && Contents(f') == Contents(f) + buf
  }

  /** A write at the end adds its bytes exactly when the last call did not end on a
      block boundary; otherwise it writes over the last block, and the file claims
      more bytes than it has. */
  lemma {:induction false} AddedIff(f: File, p: nat, buf: Bytes)
    requires AtEnd(f, p) && p == f.size
    ensures Added(f, Extended(f, p, buf), buf) <==> p == 0 || p % FBLOCK_DATA != 0 || buf == []
  {
    var f', s := Extended(f, p, buf), Start(f, p);
    if p == 0 || p % FBLOCK_DATA != 0 {
      assert p == s;
      assert f'.data[..p + |buf|] == AtHand(f)[..p] + buf;
    } else {
      EndsOnBoundary(f, p);
      if buf == [] {
        assert f'.data == f.data;
      } else {
        ShortByABlock(s, |buf|);
      }
    }
  }

  lemma {:induction false} EndsOnBoundary(f: File, p: nat)
    requires AtEnd(f, p) && p > 0 && p % FBLOCK_DATA == 0
    ensures p == |f.data|
  {
    var a, b := p / FBLOCK_DATA, |f.data| / FBLOCK_DATA;
    assert p == FBLOCK_DATA * a && |f.data| == FBLOCK_DATA * b;
  }

  lemma {:induction false} ShortByABlock(s: nat, n: nat)
    requires n > 0
    ensures WholeBlocks(s + n) < s + FBLOCK_DATA + n
  {
  }

  /** Where the next write starts from. */
  lemma {:induction false} StillAtEnd(f: File, p: nat, buf: Bytes)
    requires AtEnd(f, p) && (p == 0 || p % FBLOCK_DATA != 0 || buf == [])
    ensures AtEnd(Extended(f, p, buf), p + |buf|)
  {
    if buf == [] {
      assert Put(AtHand(f), Start(f, p), buf) == AtHand(f);
    }
  }

  /** The writes bufs, one after another, to a file made by f and a position. */
  function Written(f: File, p: nat, bufs: seq<Bytes>): File
    requires AtEnd(f, p) && Smooth(p, bufs)
    decreases |bufs|
  {
    if bufs == [] then f
    else
      StillAtEnd(f, p, bufs[0]);
      Written(Extended(f, p, bufs[0]), p + |bufs[0]|, bufs[1..])
  }

  /** No call starts where the one before it ended on a block boundary. */
  predicate Smooth(p: nat, bufs: seq<Bytes>)
    decreases |bufs|
  {
    bufs != [] ==>
      && (p == 0 || p % FBLOCK_DATA != 0 || bufs[0] == [])
      && Smooth(p + |bufs[0]|, bufs[1..])
  }

  lemma {:induction false} WrittenAll(f: File, bufs: seq<Bytes>)
    requires AtEnd(f, f.size) && Smooth(f.size, bufs)
    ensures Holds(f) && Added(f, Written(f, f.size, bufs), Concat(bufs))
    decreases |bufs|
  {
    hide AtEnd, Extended, Added, Holds, Concat;
    if bufs == [] {
      AddedNone(f);
    } else {
      var f1 := Extended(f, f.size, bufs[0]);
      StillAtEnd(f, f.size, bufs[0]);
      SizeAtEnd(f);
      AddedIff(f, f.size, bufs[0]);
      ExtendedSize(f, bufs[0]);
      WrittenAll(f1, bufs[1..]);
      ConcatFront(bufs);
      AddedTwice(f, f1, Written(f1, f1.size, bufs[1..]), bufs[0], Concat(bufs[1..]));
    }
  }

  lemma {:induction false} AddedNone(f: File)
    requires AtEnd(f, f.size)
    ensures Holds(f) && Added(f, f, Concat([]))
  {
  }

  lemma {:induction false} SizeAtEnd(f: File)
    requires AtEnd(f, f.size)
    ensures Holds(f)
  {
  }

  lemma {:induction false} ExtendedSize(f: File, buf: Bytes)
    requires AtEnd(f, f.size)
    ensures Extended(f, f.size, buf).size == f.size + |buf|
  {
  }

  lemma {:induction false} AddedTwice(f: File, f1: File, f2: File, a: Bytes, b: Bytes)
    requires Holds(f) && Added(f, f1, a) && Added(f1, f2, b)
    ensures Added(f, f2, a + b)
  {
    assert Contents(f) + a + b == Contents(f) + (a + b);
  }

  lemma {:induction false} ConcatFront(s: seq<Bytes>)
    requires s != []
    ensures Concat(s) == s[0] + Concat(s[1..])
  {
    if |s| > 1 {
      ConcatFront(s[..|s| - 1]);
      assert s[..|s| - 1][1..] == s[1..][..|s| - 2];
      assert s[1..][|s| - 2] == s[|s| - 1];
    }
  }

  /** A write adds no more blocks than its bytes need. */
  lemma {:induction false} BlocksAdded(f: File, p: nat, buf: Bytes, len: nat, len': nat)
    requires AtEnd(f, p) && |f.data| == FBLOCK_DATA * len && |Extended(f, p, buf).data| == FBLOCK_DATA * len'
    ensures len' <= len + |buf| / FBLOCK_DATA + 1
  {
    assert |buf| == FBLOCK_DATA * (|buf| / FBLOCK_DATA) + |buf| % FBLOCK_DATA;
  }

  /** Blocks enough for a series of writes, however they fall. */
  function BlocksFor(bufs: seq<Bytes>): nat
    decreases |bufs|
  {
    if bufs == [] then 0 else |bufs[0]| / FBLOCK_DATA + 2 + BlocksFor(bufs[1..])
  }

  // ------------------------------------------------------------------- reading

  /** How many bytes a read of n at p is to give. */
  function Wanted(f: File, p: nat, n: nat): nat {
    if p >= f.size then 0 else if p + n > f.size then f.size - p else n
  }

  function ReadOne(f: File, p: nat, n: nat): Bytes
    requires Holds(f)
  {
    var w := Wanted(f, p, n);
    if w == 0 then [] else f.data[p..p + w]
  }

  /** The results of reads of the given sizes, one after another. */
  function ReadMany(f: File, p: nat, sizes: seq<nat>): seq<Bytes>
    requires Holds(f)
    decreases |sizes|
  {
    if sizes == [] then []
    else [ReadOne(f, p, sizes[0])] + ReadMany(f, p + Wanted(f, p, sizes[0]), sizes[1..])
  }

  function Sum(sizes: seq<nat>): nat
    decreases |sizes|
  {
    if sizes == [] then 0 else sizes[0] + Sum(sizes[1..])
  }

  /** Whatever the sizes, the reads give consecutive parts of the contents. */
  lemma {:induction false} ReadsAreConsecutive(f: File, p: nat, sizes: seq<nat>)
    requires Holds(f) && p <= f.size
    ensures Concat(ReadMany(f, p, sizes)) == Contents(f)[p..p + Wanted(f, p, Sum(sizes))]
    decreases |sizes|
  {
    var many := ReadMany(f, p, sizes);
    if sizes != [] {
      var w := Wanted(f, p, sizes[0]);
      ReadsAreConsecutive(f, p + w, sizes[1..]);
      ConcatFront(many);
      assert many[1..] == ReadMany(f, p + w, sizes[1..]);
    }
  }

  /** What a series of writes put into a new file, reads of any sizes give back. */
  lemma {:induction false} ReadsBack(bufs: seq<Bytes>, sizes: seq<nat>)
    requires Smooth(0, bufs) && Sum(sizes) >= |Concat(bufs)|
    ensures Holds(Written(File([], 0), 0, bufs))
    ensures Concat(ReadMany(Written(File([], 0), 0, bufs), 0, sizes)) == Concat(bufs)
  {
    hide Smooth, Concat, Written, ReadMany, Sum, Extended;
    WrittenAll(File([], 0), bufs);
    ReadsAreConsecutive(Written(File([], 0), 0, bufs), 0, sizes);
  }

  /** A write of one byte that follows a write of a whole block is not read back. */
  lemma {:induction false} BoundaryLosesData(first: Bytes, x: int)
    requires |first| == FBLOCK_DATA
    ensures var f := Extended(File([], 0), 0, first);
      && Contents(f) == first && AtEnd(f, FBLOCK_DATA)
      && !Holds(Extended(f, FBLOCK_DATA, [x])) && Extended(f, FBLOCK_DATA, [x]).data[0] == x
  {
    var f := Extended(File([], 0), 0, first);
    assert f.data == first;
    AddedIff(f, FBLOCK_DATA, [x]);
  }
}
