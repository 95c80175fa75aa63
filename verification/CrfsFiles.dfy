/** Reading and writing a file through the block cache. Reading any file gives its
    bytes in order; writing to the end of a file made since the last flush extends
    it, and keeps the committed tree safe. */
module CrfsFiles {
  import opened CrfsImage
  import opened CrfsFreemap
  import opened CrfsStore
  import opened Crfs
  import opened FileContents

  // -------------------------------------------------------------- a file's bytes

  /** What inode i holds. */
  ghost function FileOf(mem: Image, sb: Super, plan: Plan, i: nat): File {
    File(Concat(FileData(mem, if i in plan.chains then plan.chains[i] else [])), InodeAt(mem, sb, i).size)
  }

  /** Inode i is a file in use, and its pieces are whole blocks. */
  ghost predicate IsFile(mem: Image, sb: Super, plan: Plan, i: nat) {
    i in plan.chains && !InodeAt(mem, sb, i).dir && Full(FileData(mem, plan.chains[i]))
  }

  /** Piece k of the file is the one at hand. */
  ghost predicate Loaded(mem: Image, chain: seq<nat>, k: int, curblock: nat, fblock: Block) {
    0 <= k < |chain| && curblock == chain[k] && curblock != 0 && fblock == Get(mem, chain[k])
  }

  /** The piece that a position lies in; at the end of the last piece, that one. */
  function PieceAt(chain: seq<nat>, p: nat): int {
    if p == FBLOCK_DATA * |chain| then |chain| - 1 else p / FBLOCK_DATA
  }

  /** A position in the file, with the piece it lies in at hand. */
  ghost predicate Positioned(mem: Image, chain: seq<nat>, p: nat, curblock: nat, fblock: Block) {
    if chain == [] then curblock == 0 && p == 0
    else p <= FBLOCK_DATA * |chain| && Loaded(mem, chain, PieceAt(chain, p), curblock, fblock)
  }

  /** A file opened, and read or written since; past the end of its blocks nothing
      is to be read. */
  ghost predicate Opened(mem: Image, sb: Super, plan: Plan, i: nat, p: nat, curblock: nat, fblock: Block) {
    && IsFile(mem, sb, plan, i) && Positioned(mem, plan.chains[i], p, curblock, fblock)
    && var f := FileOf(mem, sb, plan, i); Holds(f) || p < |f.data| || f.data == []
  }

  /** What reading a file relies on. */
  lemma {:induction false} ReadFacts(fs: FileSystem, i: nat)
    requires fs.Valid() && IsFile(fs.store.mem, fs.sb, fs.plan, i)
    ensures fs.Ready() && fs.store.Valid()
    ensures var it := Get(fs.store.mem, TableOf(fs.sb, i));
      it.ITable? && i % ITABLE_NINODES < |it.inodes| && it.inodes[i % ITABLE_NINODES] == InodeAt(fs.store.mem, fs.sb, i)
    ensures Chained(fs.store.mem, fs.plan.chains[i]) && Full(FileData(fs.store.mem, fs.plan.chains[i]))
    ensures |FileOf(fs.store.mem, fs.sb, fs.plan, i).data| == FBLOCK_DATA * |fs.plan.chains[i]|
  {
    hide WellFormed;
    fs.ValidIs();
    fs.ReadyIs();
    FileFacts(fs.store.mem, fs.sb, fs.plan, i);
    ChainNonzero(fs.store.mem, fs.sb, fs.plan, i);
    ConcatLength(FileData(fs.store.mem, fs.plan.chains[i]));
  }

  /** The pieces of a chain lead each to the next. */
  ghost predicate Chained(mem: Image, chain: seq<nat>) {
    FileOk(mem, chain) && forall k :: 0 <= k < |chain| ==> chain[k] != 0
  }

  lemma {:induction false} ChainNonzero(mem: Image, sb: Super, plan: Plan, i: nat)
    requires WellFormed(mem, sb, plan) && i in plan.chains && !InodeAt(mem, sb, i).dir
    ensures Chained(mem, plan.chains[i])
  {
    hide InodeAt, TablesOk;
    FileFacts(mem, sb, plan, i);
    var chain := plan.chains[i];
    forall k | 0 <= k < |chain| ensures chain[k] != 0 {
      assert chain[k] in plan.own;
    }
  }

  /** What is at hand of a positioned file. */
  lemma {:induction false} PieceFacts(mem: Image, chain: seq<nat>, p: nat, n: nat, curblock: nat, fblock: Block)
    requires Chained(mem, chain) && Full(FileData(mem, chain)) && p < FBLOCK_DATA * |chain|
    requires Positioned(mem, chain, p, curblock, fblock) && p % FBLOCK_DATA + n <= FBLOCK_DATA
    ensures fblock.Piece? && |fblock.data| == FBLOCK_DATA && p + n <= |Concat(FileData(mem, chain))|
    ensures fblock.data[p % FBLOCK_DATA..p % FBLOCK_DATA + n] == Concat(FileData(mem, chain))[p..p + n]
  {
    var k, a := p / FBLOCK_DATA, p % FBLOCK_DATA;
    assert LinkOk(mem, chain, k);
    assert FileData(mem, chain)[k] == fblock.data;
    assert p == FBLOCK_DATA * k + a;
    PieceOf(FileData(mem, chain), k, a, a + n);
  }

  // -------------------------------------------------------------------- reading

  /** crfs_lookup_inode, through the cache. */
  method LookupInode(fs: FileSystem, i: nat) returns (inode: Inode)
    requires fs.Valid() && IsFile(fs.store.mem, fs.sb, fs.plan, i)
    modifies fs.store`cache
    ensures fs.Valid() && inode == InodeAt(fs.store.mem, fs.sb, i)
    ensures Chained(fs.store.mem, fs.plan.chains[i])
  {
    ReadFacts(fs, i);
    hide FileSystem.Valid, FileSystem.Ready, BlockStore.Valid, WellFormed, Space, Committed, InodeAt;
    fs.ValidIs();
    fs.ReadyIs();
    var it := fs.store.Read(TableOf(fs.sb, i));
    fs.NowReady();
    fs.NowValid();
    inode := it.inodes[i % ITABLE_NINODES];
  }

  /** next_fblock */
  method NextFblock(fs: FileSystem, fp: CoFile) returns (ok: bool)
    requires fs.Valid() && fp.fblock.Piece?
    modifies fp`curblock, fp`fblock, fs.store`cache
    ensures fs.Valid() && ok == (old(fp.fblock).next != 0)
    ensures ok ==> fp.curblock == old(fp.fblock).next && fp.fblock == Get(fs.store.mem, fp.curblock)
    ensures !ok ==> fp.curblock == old(fp.curblock) && fp.fblock == old(fp.fblock)
  {
    hide *;
    ok := fp.fblock.next != 0;
    if ok {
      fs.ValidIs();
      fs.ReadyIs();
      fp.curblock := fp.fblock.next;
      fp.fblock := fs.store.Read(fp.curblock);
      fs.NowReady();
      fs.NowValid();
    }
  }

  /** After the last byte of a piece: the next piece, or the end of the chain. */
  lemma {:induction false} NextPosition(mem: Image, chain: seq<nat>, p: nat, p': nat, curblock: nat, fblock: Block, ok: bool, curblock': nat, fblock': Block)
    requires Chained(mem, chain) && chain != [] && p < FBLOCK_DATA * |chain| && Positioned(mem, chain, p, curblock, fblock)
    requires fblock.Piece? && p' == p - p % FBLOCK_DATA + FBLOCK_DATA && ok == (fblock.next != 0)
    requires ok ==> curblock' == fblock.next && fblock' == Get(mem, curblock')
    requires !ok ==> curblock' == curblock && fblock' == fblock
    ensures Positioned(mem, chain, p', curblock', fblock') && p' % FBLOCK_DATA == 0
    ensures ok <==> p' < FBLOCK_DATA * |chain|
  {
    var k := p / FBLOCK_DATA;
    assert p == FBLOCK_DATA * k + p % FBLOCK_DATA;
    assert LinkOk(mem, chain, k);
    assert p' == FBLOCK_DATA * (k + 1);
    assert p' / FBLOCK_DATA == k + 1;
  }

  /** A position further on in the same piece. */
  lemma {:induction false} SamePiece(mem: Image, chain: seq<nat>, p: nat, n: nat, curblock: nat, fblock: Block)
    requires chain != [] && p < FBLOCK_DATA * |chain| && Positioned(mem, chain, p, curblock, fblock) && p % FBLOCK_DATA + n < FBLOCK_DATA
    ensures Positioned(mem, chain, p + n, curblock, fblock)
  {
    var k := p / FBLOCK_DATA;
    assert p + n == FBLOCK_DATA * k + (p % FBLOCK_DATA + n);
    assert (p + n) / FBLOCK_DATA == k;
  }

  /** What reads go by: the file, the chain of its pieces and the position. */
  ghost predicate Reading(mem: Image, chain: seq<nat>, f: File, p: nat, curblock: nat, fblock: Block) {
    && Chained(mem, chain) && Full(FileData(mem, chain)) && chain != [] && f.data == Concat(FileData(mem, chain))
    && |f.data| == FBLOCK_DATA * |chain| && Positioned(mem, chain, p, curblock, fblock)
  }

  lemma {:induction false} StartReading(mem: Image, chain: seq<nat>, f: File, p: nat, curblock: nat, fblock: Block)
    requires Chained(mem, chain) && Full(FileData(mem, chain)) && f.data == Concat(FileData(mem, chain))
    requires Positioned(mem, chain, p, curblock, fblock)
    ensures |f.data| == FBLOCK_DATA * |chain| && (curblock == 0 <==> chain == []) && (chain == [] ==> f.data == [] && p == 0)
    ensures chain != [] ==> Reading(mem, chain, f, p, curblock, fblock)
  {
    hide FileOk;
    ConcatLength(FileData(mem, chain));
  }

  lemma {:induction false} StillPositioned(mem: Image, chain: seq<nat>, f: File, p: nat, curblock: nat, fblock: Block)
    requires Reading(mem, chain, f, p, curblock, fblock)
    ensures Positioned(mem, chain, p, curblock, fblock) && p <= |f.data|
  {
  }

  /** memcpy out of the piece at hand, and the position moved past it. */
  method TakePart(fs: FileSystem, fp: CoFile, ghost f: File, ghost chain: seq<nat>, n: nat) returns (part: Bytes)
    requires Reading(fs.store.mem, chain, f, fp.fpos, fp.curblock, fp.fblock) && fp.fpos < |f.data|
    requires fp.fpos % FBLOCK_DATA + n <= FBLOCK_DATA
    modifies fp`fpos
    ensures fp.fpos == old(fp.fpos) + n <= |f.data| && part == f.data[old(fp.fpos)..fp.fpos] && fp.fblock.Piece?
    ensures old(fp.fpos) % FBLOCK_DATA + n < FBLOCK_DATA ==> Reading(fs.store.mem, chain, f, fp.fpos, fp.curblock, fp.fblock)
  {
    PartFacts(fs.store.mem, chain, f, fp.fpos, n, fp.curblock, fp.fblock);
    hide Reading, Positioned, Chained, Full, Concat, FileData;
    var fboff := fp.fpos % FBLOCK_DATA;
    part := fp.fblock.data[fboff..fboff + n];
    fp.fpos := fp.fpos + n;
  }

  lemma {:induction false} PartFacts(mem: Image, chain: seq<nat>, f: File, p: nat, n: nat, curblock: nat, fblock: Block)
    requires Reading(mem, chain, f, p, curblock, fblock) && p < |f.data| && p % FBLOCK_DATA + n <= FBLOCK_DATA
    ensures fblock.Piece? && |fblock.data| == FBLOCK_DATA && p + n <= |f.data|
    ensures fblock.data[p % FBLOCK_DATA..p % FBLOCK_DATA + n] == f.data[p..p + n]
    ensures p % FBLOCK_DATA + n < FBLOCK_DATA ==> Reading(mem, chain, f, p + n, curblock, fblock)
  {
    hide Positioned, Chained, Full, Concat, FileData;
    PieceFacts(mem, chain, p, n, curblock, fblock);
    if p % FBLOCK_DATA + n < FBLOCK_DATA { SamePiece(mem, chain, p, n, curblock, fblock); }
  }

  /** The rest of the piece at hand, and on to the next. */
  method FinishPiece(fs: FileSystem, fp: CoFile, ghost f: File, ghost chain: seq<nat>) returns (part: Bytes, ok: bool)
    requires fs.Valid() && Reading(fs.store.mem, chain, f, fp.fpos, fp.curblock, fp.fblock) && fp.fpos < |f.data|
    modifies fp`fpos, fp`curblock, fp`fblock, fs.store`cache
    ensures fs.Valid() && Reading(fs.store.mem, chain, f, fp.fpos, fp.curblock, fp.fblock)
    ensures fp.fpos == old(fp.fpos) - old(fp.fpos) % FBLOCK_DATA + FBLOCK_DATA && fp.fpos % FBLOCK_DATA == 0
    ensures fp.fpos <= |f.data| && part == f.data[old(fp.fpos)..fp.fpos] && (ok <==> fp.fpos < |f.data|)
  {
    hide Reading, Positioned, Chained, Full, Concat, FileData, FileSystem.Valid;
    ghost var p, curblock, fblock := fp.fpos, fp.curblock, fp.fblock;
    part := TakePart(fs, fp, f, chain, FBLOCK_DATA - fp.fpos % FBLOCK_DATA);
    ok := NextFblock(fs, fp);
    NextReading(fs.store.mem, chain, f, p, fp.fpos, curblock, fblock, ok, fp.curblock, fp.fblock);
  }

  lemma {:induction false} NextReading(mem: Image, chain: seq<nat>, f: File, p: nat, p': nat, curblock: nat, fblock: Block,
                                       ok: bool, curblock': nat, fblock': Block)
    requires Reading(mem, chain, f, p, curblock, fblock) && p < |f.data|
    requires fblock.Piece? && p' == p - p % FBLOCK_DATA + FBLOCK_DATA && ok == (fblock.next != 0)
    requires ok ==> curblock' == fblock.next && fblock' == Get(mem, curblock')
    requires !ok ==> curblock' == curblock && fblock' == fblock
    ensures Reading(mem, chain, f, p', curblock', fblock') && p' % FBLOCK_DATA == 0 && (ok <==> p' < |f.data|)
  {
    hide Positioned, Chained, Full, Concat, FileData;
    NextPosition(mem, chain, p, p', curblock, fblock, ok, curblock', fblock');
  }

  /** The outcome of a read: the bytes wanted, or none if the chain ends too early. */
  ghost predicate ReadGives(f: File, p: nat, n: nat, got: Bytes, p': nat) {
    var w := Wanted(f, p, n);
    if w > 0 && p + w > |f.data| then got == []
    else got == (if w == 0 then [] else f.data[p..p + w]) && p' == p + w
  }

  /** An open file is readable, unless it has no blocks. */
  lemma {:induction false} CanRead(mem: Image, sb: Super, plan: Plan, i: nat, p: nat, curblock: nat, fblock: Block)
    requires Opened(mem, sb, plan, i, p, curblock, fblock) && Chained(mem, plan.chains[i])
    ensures i in plan.chains
    ensures var f := FileOf(mem, sb, plan, i);
      && f.size == InodeAt(mem, sb, i).size
      && if curblock == 0 then f.data == []
         else Reading(mem, plan.chains[i], f, p, curblock, fblock) && f.data != [] && (p < f.size ==> p < |f.data|)
  {
    hide FileOk, Concat, FileData, InodeAt;
    ConcatLength(FileData(mem, plan.chains[i]));
    StartReading(mem, plan.chains[i], FileOf(mem, sb, plan, i), p, curblock, fblock);
  }

  /** crfs_read, from the first copy on: the bytes, unless the chain ends early. */
  method CopyOut(fs: FileSystem, fp: CoFile, ghost f: File, ghost chain: seq<nat>, n: nat) returns (got: Bytes)
    requires fs.Valid() && Reading(fs.store.mem, chain, f, fp.fpos, fp.curblock, fp.fblock) && fp.fpos < |f.data| && n > 0
    modifies fp`fpos, fp`curblock, fp`fblock, fs.store`cache
    ensures fs.Valid() && Reading(fs.store.mem, chain, f, fp.fpos, fp.curblock, fp.fblock)
    ensures old(fp.fpos) + n <= |f.data| ==> got == f.data[old(fp.fpos)..old(fp.fpos) + n] && fp.fpos == old(fp.fpos) + n
    ensures old(fp.fpos) + n > |f.data| ==> got == []
  {
    hide Reading, FileSystem.Valid;
    ghost var mem, p0 := fs.store.mem, fp.fpos;
    var size: nat := n;
    got := [];
    if size >= FBLOCK_DATA - fp.fpos % FBLOCK_DATA {
      size := size - (FBLOCK_DATA - fp.fpos % FBLOCK_DATA);
      var ok;
      got, ok := FinishPiece(fs, fp, f, chain);
      if !ok && size > 0 {
        return [];
      }
      while size >= FBLOCK_DATA
        invariant fs.Valid() && Reading(mem, chain, f, fp.fpos, fp.curblock, fp.fblock)
        invariant p0 <= fp.fpos <= |f.data| && fp.fpos + size == p0 + n && got == f.data[p0..fp.fpos]
        invariant fp.fpos % FBLOCK_DATA == 0 && (size > 0 ==> fp.fpos < |f.data|)
        decreases size
      {
        size := size - FBLOCK_DATA;
        var part;
        part, ok := FinishPiece(fs, fp, f, chain);
        got := got + part;
        if !ok && size > 0 {
          return [];
        }
      }
    }
    if size > 0 {
      ghost var p := fp.fpos;
      assert got == f.data[p0..p];
      var part := TakePart(fs, fp, f, chain, size);
      got := got + part;
      assert f.data[p0..p] + f.data[p..p + size] == f.data[p0..p + size];
    }
  }

  /** crfs_read */
  method Read(fs: FileSystem, fp: CoFile, n: nat) returns (got: Bytes)
    requires fs.Valid() && Opened(fs.store.mem, fs.sb, fs.plan, fp.inode, fp.fpos, fp.curblock, fp.fblock)
    modifies fp`fpos, fp`curblock, fp`fblock, fs.store`cache
    ensures fs.Valid() && IsFile(fs.store.mem, fs.sb, fs.plan, fp.inode)
    ensures Positioned(fs.store.mem, fs.plan.chains[fp.inode], fp.fpos, fp.curblock, fp.fblock)
    ensures ReadGives(FileOf(fs.store.mem, fs.sb, fs.plan, fp.inode), old(fp.fpos), n, got, fp.fpos)
  {
    hide Reading, Positioned, FileOf, FileSystem.Valid, InodeAt, Chained, Full, FileData, Opened;
    ghost var f := FileOf(fs.store.mem, fs.sb, fs.plan, fp.inode);
    OpenedIs(fs.store.mem, fs.sb, fs.plan, fp.inode, fp.fpos, fp.curblock, fp.fblock);
    var inode := LookupInode(fs, fp.inode);
    CanRead(fs.store.mem, fs.sb, fs.plan, fp.inode, fp.fpos, fp.curblock, fp.fblock);
    got := [];
    if fp.fpos < inode.size {
      var size := if fp.fpos + n > inode.size then inode.size - fp.fpos else n;
      if fp.curblock != 0 && size > 0 {
        got := CopyOut(fs, fp, f, fs.plan.chains[fp.inode], size);
        StillPositioned(fs.store.mem, fs.plan.chains[fp.inode], f, fp.fpos, fp.curblock, fp.fblock);
      }
    }
  }

  lemma {:induction false} OpenedIs(mem: Image, sb: Super, plan: Plan, i: nat, p: nat, curblock: nat, fblock: Block)
    requires Opened(mem, sb, plan, i, p, curblock, fblock)
    ensures IsFile(mem, sb, plan, i) && i in plan.chains && Positioned(mem, plan.chains[i], p, curblock, fblock)
  {
  }

  // -------------------------------------------------------------------- writing

  /** The inodes other than i keep their contents. */
  ghost predicate OthersSame(mem: Image, sb: Super, plan: Plan, mem': Image, sb': Super, plan': Plan, i: nat) {
    && plan'.chains.Keys == plan.chains.Keys
    && forall j :: j in plan.chains && j != i ==> NodeAt(mem', sb', j) == NodeAt(mem, sb, j)
  }

  /** The last piece of file i written again, with other data. */
  lemma {:induction false} Refilled(mem: Image, sb: Super, plan: Plan, i: nat, piece: Block)
    requires WellFormed(mem, sb, plan) && i in plan.chains && !InodeAt(mem, sb, i).dir && plan.chains[i] != []
    requires piece.Piece? && piece.next == 0 && plan.own.Keys !! SUPERS
    ensures var mem', chain := mem[LastOf(plan.chains[i]) := piece], plan.chains[i];
      && WellFormed(mem', sb, plan) && FileData(mem', chain) == WithLast(FileData(mem, chain), piece.data)
      && InodeAt(mem', sb, i) == InodeAt(mem, sb, i) && OthersSame(mem, sb, plan, mem', sb, plan, i)
  {
    var chain := plan.chains[i];
    var mem' := mem[LastOf(chain) := piece];
    FileFacts(mem, sb, plan, i);
    RefilledTables(mem, sb, plan, i, piece);
    RefilledChain(mem, plan, i, piece);
    hide InodeAt, TablesOk, NodeAt, FileOk, FileData;
    forall x | x in plan.own && plan.own[x].PartOf? && plan.own[x].i != i ensures Get(mem', x) == Get(mem, x) {
      assert plan.own[LastOf(chain)] == PartOf(i, |chain| - 1);
    }
    WellFormedAfter(mem, sb, plan, mem', sb, plan, i);
  }

  lemma {:induction false} RefilledTables(mem: Image, sb: Super, plan: Plan, i: nat, piece: Block)
    requires TablesOk(mem, sb, plan.own) && i in plan.chains && plan.chains[i] != [] && Owned(plan.own, i, plan.chains[i])
    ensures TablesOk(mem[LastOf(plan.chains[i]) := piece], sb, plan.own)
    ensures forall j :: TableOf(sb, j) != 0 ==> KeptInode(mem, sb, mem[LastOf(plan.chains[i]) := piece], sb, j)
  {
    var mem' := mem[LastOf(plan.chains[i]) := piece];
    assert plan.own[LastOf(plan.chains[i])] == PartOf(i, |plan.chains[i]| - 1);
    forall k | 0 <= k < VTABLE_LEN ensures TableOk(mem', sb, plan.own, k) {
      assert TableOk(mem, sb, plan.own, k);
    }
    forall j: nat | TableOf(sb, j) != 0 ensures KeptInode(mem, sb, mem', sb, j) {
      assert TableOk(mem, sb, plan.own, j / ITABLE_NINODES);
    }
  }

  lemma {:induction false} RefilledChain(mem: Image, plan: Plan, i: nat, piece: Block)
    requires i in plan.chains && plan.chains[i] != [] && Owned(plan.own, i, plan.chains[i]) && FileOk(mem, plan.chains[i])
    requires piece.Piece? && piece.next == 0
    ensures var mem', chain := mem[LastOf(plan.chains[i]) := piece], plan.chains[i];
      FileOk(mem', chain) && FileData(mem', chain) == WithLast(FileData(mem, chain), piece.data)
  {
    var chain := plan.chains[i];
    var mem', last := mem[LastOf(chain) := piece], |chain| - 1;
    forall p | 0 <= p < |chain| ensures LinkOk(mem', chain, p) && (p < last ==> FileData(mem', chain)[p] == FileData(mem, chain)[p]) {
      assert LinkOk(mem, chain, p);
      assert plan.own[chain[p]] == PartOf(i, p) && plan.own[chain[last]] == PartOf(i, last);
    }
  }

  /** The inode of file i written again, with another size. */
  lemma {:induction false} Resized(mem: Image, sb: Super, plan: Plan, mem': Image, sb': Super, own': map<nat, Owner>, i: nat, size: nat)
    requires WellFormed(mem, sb, plan) && i in plan.chains && !InodeAt(mem, sb, i).dir && own'.Keys !! SUPERS
    requires Rewritten(mem, sb, plan.own, mem', sb', own', InodeAt(mem, sb, i).(size := size))
    ensures var plan' := Plan(plan.chains, own');
      && WellFormed(mem', sb', plan') && FileData(mem', plan.chains[i]) == FileData(mem, plan.chains[i])
      && InodeAt(mem', sb', i) == InodeAt(mem, sb, i).(size := size) && OthersSame(mem, sb, plan, mem', sb', plan', i)
    ensures plan.chains[i] != [] ==> Get(mem', LastOf(plan.chains[i])) == Get(mem, LastOf(plan.chains[i]))
  {
    var plan', chain := Plan(plan.chains, own'), plan.chains[i];
    FileFacts(mem, sb, plan, i);
    forall p | 0 <= p < |chain| ensures chain[p] in own' && own'[chain[p]] == PartOf(i, p) && Get(mem', chain[p]) == Get(mem, chain[p]) {
      assert plan.own[chain[p]] == PartOf(i, p);
    }
    forall p | 0 <= p < |chain| ensures LinkOk(mem', chain, p) {
      assert LinkOk(mem, chain, p);
    }
    ResizedOthers(mem, sb, plan, mem', sb', own', i, size);
    hide InodeAt, TablesOk, NodeAt, OthersKept;
    WellFormedAfter(mem, sb, plan, mem', sb', plan', i);
  }

  lemma {:induction false} ResizedOthers(mem: Image, sb: Super, plan: Plan, mem': Image, sb': Super, own': map<nat, Owner>, i: nat, size: nat)
    requires WellFormed(mem, sb, plan) && i in plan.chains && InodeAt(mem, sb, i).num == i
    requires Rewritten(mem, sb, plan.own, mem', sb', own', InodeAt(mem, sb, i).(size := size))
    ensures OthersKept(mem, sb, plan, mem', sb', Plan(plan.chains, own'), i)
  {
    hide InodeAt, TablesOk, NodeOk;
    forall j | j in plan.chains && j != i ensures KeptInode(mem, sb, mem', sb', j) {
      assert TableOf(sb, j) != 0;
    }
  }

  /** A file made since the last flush, with its last piece at hand. */
  ghost predicate Growing(mem: Image, sb: Super, plan: Plan, cown: set<nat>, i: nat, curblock: nat, fblock: Block) {
    && IsFile(mem, sb, plan, i) && fblock.Piece? && fblock.next == 0 && |fblock.data| == FBLOCK_DATA
    && curblock == LastOf(plan.chains[i]) && curblock !in cown && (curblock == 0 <==> plan.chains[i] == [])
  }

  /** The file's bytes, with the last piece as it is at hand. */
  ghost function View(mem: Image, plan: Plan, i: nat, fblock: Block): Bytes {
    if i in plan.chains && fblock.Piece? then Concat(WithLast(FileData(mem, plan.chains[i]), fblock.data)) else []
  }

  /** The others' contents, and the size of i, are as before. */
  ghost predicate Kept(mem: Image, sb: Super, plan: Plan, mem': Image, sb': Super, plan': Plan, i: nat) {
    OthersSame(mem, sb, plan, mem', sb', plan', i) && InodeAt(mem', sb', i).size == InodeAt(mem, sb, i).size
  }

  lemma {:induction false} KeptTwice(mem: Image, sb: Super, plan: Plan, mem1: Image, sb1: Super, plan1: Plan,
                                     mem2: Image, sb2: Super, plan2: Plan, i: nat)
    requires Kept(mem, sb, plan, mem1, sb1, plan1, i) && Kept(mem1, sb1, plan1, mem2, sb2, plan2, i)
    ensures Kept(mem, sb, plan, mem2, sb2, plan2, i)
  {
    hide NodeAt, InodeAt;
  }

  lemma {:induction false} KeptSame(mem: Image, sb: Super, plan: Plan, i: nat)
    ensures Kept(mem, sb, plan, mem, sb, plan, i)
  {
  }

  lemma {:induction false} LastTwice(data: seq<Bytes>, a: Bytes)
    ensures WithLast(WithLast(data, a), a) == WithLast(data, a)
  {
  }

  /** The last piece saved: the image now has what is at hand. */
  lemma {:induction false} Saved(fs: FileSystem, mem0: Image, i: nat, curblock: nat, fblock: Block)
    requires WellFormed(mem0, fs.sb, fs.plan) && fs.plan.own.Keys !! SUPERS
    requires Growing(mem0, fs.sb, fs.plan, fs.cplan.own.Keys, i, curblock, fblock) && curblock != 0
    requires fs.store.mem == mem0[curblock := fblock]
    ensures WellFormed(fs.store.mem, fs.sb, fs.plan) && Kept(mem0, fs.sb, fs.plan, fs.store.mem, fs.sb, fs.plan, i)
    ensures Growing(fs.store.mem, fs.sb, fs.plan, fs.cplan.own.Keys, i, curblock, fblock)
    ensures View(fs.store.mem, fs.plan, i, fblock) == View(mem0, fs.plan, i, fblock)
    ensures fblock == Get(fs.store.mem, curblock)
  {
    Refilled(mem0, fs.sb, fs.plan, i, fblock);
    hide WellFormed, InodeAt, NodeAt;
    LastTwice(FileData(mem0, fs.plan.chains[i]), fblock.data);
  }

  /** crfs_write_block of the piece at hand. */
  method Save(fs: FileSystem, fp: CoFile)
    requires fs.Valid() && fp.curblock != 0
    requires Growing(fs.store.mem, fs.sb, fs.plan, fs.cplan.own.Keys, fp.inode, fp.curblock, fp.fblock)
    modifies fs.store`cache, fs.store`mem
    ensures fs.Valid() && Kept(old(fs.store.mem), fs.sb, fs.plan, fs.store.mem, fs.sb, fs.plan, fp.inode)
    ensures Growing(fs.store.mem, fs.sb, fs.plan, fs.cplan.own.Keys, fp.inode, fp.curblock, fp.fblock)
    ensures fp.inode in fs.plan.chains && fp.fblock.Piece? && fp.fblock == Get(fs.store.mem, fp.curblock)
    ensures View(fs.store.mem, fs.plan, fp.inode, fp.fblock) == View(old(fs.store.mem), fs.plan, fp.inode, fp.fblock)
  {
    hide *;
    ghost var mem0 := fs.store.mem;
    fs.ValidIs();
    fs.ReadyIs();
    GrowingIs(mem0, fs.sb, fs.plan, fs.cplan.own.Keys, fp.inode, fp.curblock, fp.fblock);
    FileFacts(mem0, fs.sb, fs.plan, fp.inode);
    fs.OwnedWritable(fp.curblock);
    fs.WriteBlock(fp.curblock, fp.fblock);
    Saved(fs, mem0, fp.inode, fp.curblock, fp.fblock);
    fs.NowValid();
  }

  lemma {:induction false} GrowingIs(mem: Image, sb: Super, plan: Plan, cown: set<nat>, i: nat, curblock: nat, fblock: Block)
    requires Growing(mem, sb, plan, cown, i, curblock, fblock)
    ensures i in plan.chains && !InodeAt(mem, sb, i).dir && fblock.Piece? && fblock.next == 0 && |fblock.data| == FBLOCK_DATA
    ensures curblock == LastOf(plan.chains[i]) && curblock !in cown && (curblock == 0 <==> plan.chains[i] == [])
    ensures Full(FileData(mem, plan.chains[i]))
    ensures |View(mem, plan, i, fblock)| == FBLOCK_DATA * |plan.chains[i]|
  {
    hide InodeAt;
    ConcatLength(WithLast(FileData(mem, plan.chains[i]), fblock.data));
  }

  /** No more blocks were taken than two for each the chain grew by, and extra. */
  ghost predicate Spends(room: nat, len: nat, room': nat, len': nat, extra: nat) {
    room' + 2 * len' + extra >= room + 2 * len && len' >= len
  }

  /** append_fblock, by what it does to the file's bytes. */
  method Grow(fs: FileSystem, fp: CoFile)
    requires fs.Valid() && fs.blocks.Room() >= 2
    requires Growing(fs.store.mem, fs.sb, fs.plan, fs.cplan.own.Keys, fp.inode, fp.curblock, fp.fblock)
    requires fp.inode in fs.plan.chains && |fs.plan.chains[fp.inode]| < 0x10000 && fp.fblock.Piece?
    modifies fp, fs`sb, fs`plan, fs.store`cache, fs.store`mem, fs.blocks
    ensures fs.Valid() && fs.blocks.Room() >= old(fs.blocks.Room()) - 2 && fp.inode == old(fp.inode) && fp.fpos == old(fp.fpos)
    ensures !fp.nospc
    ensures Growing(fs.store.mem, fs.sb, fs.plan, fs.cplan.own.Keys, fp.inode, fp.curblock, fp.fblock) && fp.curblock != 0
    ensures Kept(old(fs.store.mem), old(fs.sb), old(fs.plan), fs.store.mem, fs.sb, fs.plan, fp.inode)
    ensures fp.inode in fs.plan.chains && |fs.plan.chains[fp.inode]| == |old(fs.plan).chains[fp.inode]| + 1 && fp.fblock.Piece?
    ensures View(fs.store.mem, fs.plan, fp.inode, fp.fblock)
         == View(old(fs.store.mem), old(fs.plan), fp.inode, old(fp.fblock)) + Zeros(FBLOCK_DATA)
  {
    hide *;
    ghost var mem0, sb0, plan0, fblock0 := fs.store.mem, fs.sb, fs.plan, fp.fblock;
    GrowingIs(mem0, sb0, plan0, fs.cplan.own.Keys, fp.inode, fp.curblock, fp.fblock);
    fs.Append(fp);
    Grown(fs, mem0, sb0, plan0, fp.inode, fblock0, fp.curblock, fp.fblock);
  }

  lemma {:induction false} Grown(fs: FileSystem, mem0: Image, sb0: Super, plan0: Plan, i: nat, fblock0: Block, curblock: nat, fblock: Block)
    requires i in plan0.chains && Full(FileData(mem0, plan0.chains[i])) && fblock0.Piece? && |fblock0.data| == FBLOCK_DATA
    requires curblock != 0 && curblock !in fs.cplan.own && !InodeAt(fs.store.mem, fs.sb, i).dir
    requires fs.plan.chains == plan0.chains[i := plan0.chains[i] + [curblock]]
    requires fblock.Piece? && fblock == Piece(fblock.prev, 0, fblock.offset, EmptyData())
    requires FileData(fs.store.mem, fs.plan.chains[i]) == WithLast(FileData(mem0, plan0.chains[i]), fblock0.data) + [EmptyData()]
    requires InodeAt(fs.store.mem, fs.sb, i).size == InodeAt(mem0, sb0, i).size
    requires forall j :: j in fs.plan.chains && j != i ==> NodeAt(fs.store.mem, fs.sb, j) == NodeAt(mem0, sb0, j)
    ensures Growing(fs.store.mem, fs.sb, fs.plan, fs.cplan.own.Keys, i, curblock, fblock)
    ensures Kept(mem0, sb0, plan0, fs.store.mem, fs.sb, fs.plan, i)
    ensures View(fs.store.mem, fs.plan, i, fblock) == View(mem0, plan0, i, fblock0) + Zeros(FBLOCK_DATA)
  {
    hide InodeAt, NodeAt, FileData;
    var data := WithLast(FileData(mem0, plan0.chains[i]), fblock0.data);
    assert WithLast(data + [EmptyData()], EmptyData()) == data + [EmptyData()];
    ConcatMore(data, EmptyData());
  }

  /** memcpy into the piece at hand. */
  method Fill(fp: CoFile, at: nat, bytes: Bytes)
    requires fp.fblock.Piece? && |fp.fblock.data| == FBLOCK_DATA && at + |bytes| <= FBLOCK_DATA
    modifies fp`fblock
    ensures fp.fblock == old(fp.fblock).(data := old(fp.fblock).data[..at] + bytes + old(fp.fblock).data[at + |bytes|..])
  {
    fp.fblock := fp.fblock.(data := fp.fblock.data[..at] + bytes + fp.fblock.data[at + |bytes|..]);
  }

  lemma {:induction false} Filled(mem: Image, sb: Super, plan: Plan, cown: set<nat>, i: nat, curblock: nat, fblock: Block, at: nat, bytes: Bytes)
    requires Growing(mem, sb, plan, cown, i, curblock, fblock) && curblock != 0 && at + |bytes| <= FBLOCK_DATA
    ensures i in plan.chains && fblock.Piece? && |fblock.data| == FBLOCK_DATA
    ensures var fblock' := fblock.(data := fblock.data[..at] + bytes + fblock.data[at + |bytes|..]);
      var v, q := View(mem, plan, i, fblock), FBLOCK_DATA * (|plan.chains[i]| - 1);
      && Growing(mem, sb, plan, cown, i, curblock, fblock') && |v| == q + FBLOCK_DATA
      && View(mem, plan, i, fblock') == v[..q + at] + bytes + v[q + at + |bytes|..]
  {
    hide InodeAt, FileData;
    var pieces := FileData(mem, plan.chains[i]);
    var init := pieces[..|pieces| - 1];
    var data' := fblock.data[..at] + bytes + fblock.data[at + |bytes|..];
    assert WithLast(pieces, fblock.data) == init + [fblock.data] && WithLast(pieces, data') == init + [data'];
    ConcatMore(init, fblock.data);
    ConcatMore(init, data');
    ConcatLength(init);
  }

  /** "we know we are done with this fblock": save it, and append another if there
      is more to write. */
  method NextBlock(fs: FileSystem, fp: CoFile, more: bool)
    requires fs.Valid() && fp.curblock != 0 && (more ==> fs.blocks.Room() >= 2)
    requires Growing(fs.store.mem, fs.sb, fs.plan, fs.cplan.own.Keys, fp.inode, fp.curblock, fp.fblock)
    requires fp.inode in fs.plan.chains && fp.fblock.Piece? && (more ==> |fs.plan.chains[fp.inode]| < 0x10000)
    modifies fp, fs`sb, fs`plan, fs.store`cache, fs.store`mem, fs.blocks
    ensures fs.Valid() && fs.blocks.Room() >= old(fs.blocks.Room()) - (if more then 2 else 0)
    ensures fp.inode == old(fp.inode) && fp.fpos == old(fp.fpos) && fp.curblock != 0 && (!old(fp.nospc) ==> !fp.nospc)
    ensures Growing(fs.store.mem, fs.sb, fs.plan, fs.cplan.own.Keys, fp.inode, fp.curblock, fp.fblock)
    ensures Kept(old(fs.store.mem), old(fs.sb), old(fs.plan), fs.store.mem, fs.sb, fs.plan, fp.inode)
    ensures fp.inode in fs.plan.chains && fp.fblock.Piece?
    ensures |fs.plan.chains[fp.inode]| == |old(fs.plan).chains[fp.inode]| + (if more then 1 else 0)
    ensures View(fs.store.mem, fs.plan, fp.inode, fp.fblock)
         == View(old(fs.store.mem), old(fs.plan), fp.inode, old(fp.fblock)) + (if more then Zeros(FBLOCK_DATA) else [])
  {
    hide Growing, Kept, View, FileSystem.Valid;
    ghost var mem0, sb0, plan0 := fs.store.mem, fs.sb, fs.plan;
    GrowingIs(mem0, sb0, plan0, fs.cplan.own.Keys, fp.inode, fp.curblock, fp.fblock);
    Save(fs, fp);
    ghost var mem1 := fs.store.mem;
    if more {
      var ok := NextFblock(fs, fp);
      if !ok {
        Grow(fs, fp);
        KeptTwice(mem0, sb0, plan0, mem1, sb0, plan0, fs.store.mem, fs.sb, fs.plan, fp.inode);
      }
    }
  }

  /** crfs_write_inode with the new length, if the file has become longer. */
  method SetSize(fs: FileSystem, fp: CoFile)
    requires fs.Valid() && fs.blocks.Room() >= 1 && fp.curblock != 0 && fp.fblock == Get(fs.store.mem, fp.curblock)
    requires Growing(fs.store.mem, fs.sb, fs.plan, fs.cplan.own.Keys, fp.inode, fp.curblock, fp.fblock)
    modifies fs`sb, fs`plan, fs.store`cache, fs.store`mem, fs.blocks
    ensures fs.blocks.Room() >= old(fs.blocks.Room()) - 1
    ensures fs.Valid() && fs.plan.chains == old(fs.plan).chains && fp.fblock == Get(fs.store.mem, fp.curblock)
    ensures Growing(fs.store.mem, fs.sb, fs.plan, fs.cplan.own.Keys, fp.inode, fp.curblock, fp.fblock)
    ensures fp.inode in fs.plan.chains && FileData(fs.store.mem, fs.plan.chains[fp.inode]) == FileData(old(fs.store.mem), fs.plan.chains[fp.inode])
    ensures OthersSame(old(fs.store.mem), old(fs.sb), old(fs.plan), fs.store.mem, fs.sb, fs.plan, fp.inode)
    ensures var size := InodeAt(old(fs.store.mem), old(fs.sb), fp.inode).size;
      InodeAt(fs.store.mem, fs.sb, fp.inode).size == if size < fp.fpos then fp.fpos else size
  {
    hide *;
    ghost var mem0, sb0, plan0 := fs.store.mem, fs.sb, fs.plan;
    GrowingIs(mem0, sb0, plan0, fs.cplan.own.Keys, fp.inode, fp.curblock, fp.fblock);
    GrowingFile(mem0, sb0, plan0, fs.cplan.own.Keys, fp.inode, fp.curblock, fp.fblock);
    KeptSame(mem0, sb0, plan0, fp.inode);
    SameOthers(mem0, sb0, plan0, fp.inode);
    var inode := LookupInode(fs, fp.inode);
    if inode.size < fp.fpos {
      fs.ValidIs();
      FileFacts(mem0, sb0, plan0, fp.inode);
      var ok := fs.WriteInode(inode.(size := fp.fpos));
      fs.ReadyIs();
      Resized(mem0, sb0, plan0, fs.store.mem, fs.sb, fs.plan.own, fp.inode, fp.fpos);
      StillGrowing(mem0, sb0, plan0, fs.store.mem, fs.sb, fs.plan, fs.cplan.own.Keys, fp.inode, fp.curblock, fp.fblock);
      fs.NowValid();
    }
  }

  lemma {:induction false} GrowingFile(mem: Image, sb: Super, plan: Plan, cown: set<nat>, i: nat, curblock: nat, fblock: Block)
    requires Growing(mem, sb, plan, cown, i, curblock, fblock)
    ensures IsFile(mem, sb, plan, i)
  {
  }

  lemma {:induction false} SameOthers(mem: Image, sb: Super, plan: Plan, i: nat)
    ensures OthersSame(mem, sb, plan, mem, sb, plan, i)
  {
  }

  lemma {:induction false} StillGrowing(mem: Image, sb: Super, plan: Plan, mem': Image, sb': Super, plan': Plan, cown: set<nat>, i: nat, curblock: nat, fblock: Block)
    requires Growing(mem, sb, plan, cown, i, curblock, fblock) && plan'.chains == plan.chains && !InodeAt(mem', sb', i).dir
    requires FileData(mem', plan.chains[i]) == FileData(mem, plan.chains[i])
    ensures Growing(mem', sb', plan', cown, i, curblock, fblock)
  {
    hide InodeAt, FileData;
  }

  // ---------------------------------------------------------- the writing loop

  /** Of buf, all but the last size bytes are in the file's blocks, from s on, and if
      there is more to come a new block has been added for it. */
  ghost predicate PutSoFar(view: Bytes, base: Bytes, s: nat, buf: Bytes, size: nat) {
    && s <= |base| && size <= |buf|
    && (s + |buf| - size) % FBLOCK_DATA == 0
    && view == base[..s] + buf[..|buf| - size] + if size > 0 then Zeros(FBLOCK_DATA) else []
  }

  /** The first block is filled to its end. */
  lemma {:induction false} PutFirst(view: Bytes, base: Bytes, s: nat, buf: Bytes, left: nat, blocks: nat)
    requires s + left == |base| == FBLOCK_DATA * blocks && left <= |buf| && view == base[..s] + buf[..left] + base[s + left..]
    ensures PutSoFar(view + (if |buf| - left > 0 then Zeros(FBLOCK_DATA) else []), base, s, buf, |buf| - left)
  {
    assert base[s + left..] == [];
  }

  /** Another whole block. */
  lemma {:induction false} PutBlock(view: Bytes, view': Bytes, base: Bytes, s: nat, buf: Bytes, size: nat)
    requires PutSoFar(view, base, s, buf, size) && size >= FBLOCK_DATA && |view| >= FBLOCK_DATA
    requires view' == view[..|view| - FBLOCK_DATA] + buf[|buf| - size..|buf| - size + FBLOCK_DATA] + view[|view|..]
    ensures PutSoFar(view' + (if size - FBLOCK_DATA > 0 then Zeros(FBLOCK_DATA) else []), base, s, buf, size - FBLOCK_DATA)
  {
    PutSoFarIs(view, base, s, buf, size);
    var done := |buf| - size;
    hide PutSoFar, Zeros;
    PutOver(base[..s], buf[..done], buf[done..done + FBLOCK_DATA], Zeros(FBLOCK_DATA), view);
    assert buf[..done] + buf[done..done + FBLOCK_DATA] == buf[..done + FBLOCK_DATA];
    NowSoFar(view', base, s, buf, size - FBLOCK_DATA);
  }

  lemma {:induction false} NowSoFar(view: Bytes, base: Bytes, s: nat, buf: Bytes, size: nat)
    requires s <= |base| && size <= |buf| && view == base[..s] + buf[..|buf| - size] && (s + |buf| - size) % FBLOCK_DATA == 0
    ensures PutSoFar(view + (if size > 0 then Zeros(FBLOCK_DATA) else []), base, s, buf, size)
  {
  }

  /** The last part of a block. */
  lemma {:induction false} PutRest(view: Bytes, view': Bytes, base: Bytes, s: nat, buf: Bytes, size: nat)
    requires PutSoFar(view, base, s, buf, size) && 0 < size < FBLOCK_DATA && |view| >= FBLOCK_DATA
    requires |base| % FBLOCK_DATA == 0 && |base| <= s + |buf| - size
    requires view' == view[..|view| - FBLOCK_DATA] + buf[|buf| - size..] + view[|view| - FBLOCK_DATA + size..]
    ensures view' == Put(base, s, buf)
  {
    hide *;
    PutSoFarIs(view, base, s, buf, size);
    var z := Zeros(FBLOCK_DATA);
    ZerosTail(FBLOCK_DATA, size);
    Rejoin(buf, |buf| - size);
    PutOver(base[..s], buf[..|buf| - size], buf[|buf| - size..], z, view);
    PutBeyond(base, s, buf, size);
  }

  lemma {:induction false} PutSoFarIs(view: Bytes, base: Bytes, s: nat, buf: Bytes, size: nat)
    requires PutSoFar(view, base, s, buf, size) && size > 0
    ensures s <= |base| && size <= |buf| && view == base[..s] + buf[..|buf| - size] + Zeros(FBLOCK_DATA)
    ensures (s + |buf| - size) % FBLOCK_DATA == 0 && FBLOCK_DATA == 4080
  {
  }

  lemma {:induction false} Rejoin(buf: Bytes, k: nat)
    requires k <= |buf|
    ensures buf[..k] + buf[k..] == buf
  {
  }

  lemma {:induction false} ZerosTail(n: nat, k: nat)
    requires k <= n
    ensures Zeros(n)[k..] == Zeros(n - k)
  {
  }

  lemma {:induction false} PutBeyond(base: Bytes, s: nat, buf: Bytes, size: nat)
    requires 0 < size < FBLOCK_DATA && size <= |buf| && s <= |base| <= s + |buf| - size && (s + |buf| - size) % FBLOCK_DATA == 0
    ensures Put(base, s, buf) == base[..s] + buf + Zeros(FBLOCK_DATA - size)
  {
    RoundsUp(s + |buf| - size, size);
  }

  lemma {:induction false} PutOver(a: Bytes, b: Bytes, r: Bytes, z: Bytes, view: Bytes)
    requires view == a + b + z && |r| <= |z|
    ensures view[..|view| - |z|] + r + view[|view| - |z| + |r|..] == a + (b + r) + z[|r|..]
  {
  }

  lemma {:induction false} RoundsUp(a: nat, r: nat)
    requires a % FBLOCK_DATA == 0 && 0 < r < FBLOCK_DATA
    ensures WholeBlocks(a + r) == a + FBLOCK_DATA
  {
  }

  lemma {:induction false} PutAll(view: Bytes, base: Bytes, s: nat, buf: Bytes)
    requires PutSoFar(view, base, s, buf, 0) && |base| % FBLOCK_DATA == 0 && |base| <= s + |buf|
    ensures view == Put(base, s, buf)
  {
    assert buf[..|buf|] == buf;
  }

  /** All of buf fits in the block at hand. */
  lemma {:induction false} PutShort(base: Bytes, s: nat, buf: Bytes)
    requires s + |buf| <= |base|
    ensures base[..s] + buf + base[s + |buf|..] == Put(base, s, buf)
  {
  }

  /** Room, in the map and in the chain, for what is still to come. */
  ghost predicate RoomFor(room: nat, len: nat, size: nat) {
    room >= 2 * (size / FBLOCK_DATA) + 1 && len + size / FBLOCK_DATA <= 0x10000
  }

  lemma {:induction false} RoomLeft(room: nat, len: nat, size: nat)
    requires RoomFor(room, len, size) && size >= FBLOCK_DATA
    ensures room >= 3 && len < 0x10000
  {
  }

  lemma {:induction false} RoomAfter(room: nat, len: nat, size: nat, room': nat, len': nat)
    requires RoomFor(room, len, size) && size >= FBLOCK_DATA
    requires room' >= room - (if size > FBLOCK_DATA then 2 else 0) && len' == len + if size > FBLOCK_DATA then 1 else 0
    ensures RoomFor(room', len', size - FBLOCK_DATA)
  {
    assert (size - FBLOCK_DATA) / FBLOCK_DATA == size / FBLOCK_DATA - 1;
  }

  /** In the middle of a write: size bytes of buf are still to come. */
  ghost predicate Writing(fs: FileSystem, fp: CoFile, base: Bytes, s: nat, buf: Bytes, size: nat)
    reads fs, fs.store, fs.blocks, fs.inodes, fp
  {
    && fs.Valid() && fp.curblock != 0 && fp.fblock.Piece? && fp.inode in fs.plan.chains
    && Growing(fs.store.mem, fs.sb, fs.plan, fs.cplan.own.Keys, fp.inode, fp.curblock, fp.fblock)
    && RoomFor(fs.blocks.Room(), |fs.plan.chains[fp.inode]|, size)
    && PutSoFar(View(fs.store.mem, fs.plan, fp.inode, fp.fblock), base, s, buf, size)
  }

  /** One whole block of buf. */
  method WriteOne(fs: FileSystem, fp: CoFile, ghost base: Bytes, ghost s: nat, buf: Bytes, size: nat) returns (left: nat)
    requires Writing(fs, fp, base, s, buf, size) && FBLOCK_DATA <= size <= |buf|
    modifies fp, fs`sb, fs`plan, fs.store`cache, fs.store`mem, fs.blocks
    ensures left == size - FBLOCK_DATA && Writing(fs, fp, base, s, buf, left)
    ensures Spends(old(fs.blocks.Room()), |old(fs.plan).chains[old(fp.inode)]|, fs.blocks.Room(), |fs.plan.chains[fp.inode]|, 0)
    ensures fp.inode == old(fp.inode) && fp.fpos == old(fp.fpos) + FBLOCK_DATA && (!old(fp.nospc) ==> !fp.nospc)
    ensures Kept(old(fs.store.mem), old(fs.sb), old(fs.plan), fs.store.mem, fs.sb, fs.plan, fp.inode)
  {
    hide Growing, Kept, View, FileSystem.Valid, PutSoFar, RoomFor;
    ghost var v := View(fs.store.mem, fs.plan, fp.inode, fp.fblock);
    ghost var room, len := fs.blocks.Room(), |fs.plan.chains[fp.inode]|;
    var part := buf[|buf| - size..|buf| - size + FBLOCK_DATA];
    GrowingIs(fs.store.mem, fs.sb, fs.plan, fs.cplan.own.Keys, fp.inode, fp.curblock, fp.fblock);
    Filled(fs.store.mem, fs.sb, fs.plan, fs.cplan.own.Keys, fp.inode, fp.curblock, fp.fblock, 0, part);
    RoomLeft(room, len, size);
    Fill(fp, 0, part);
    ghost var v' := View(fs.store.mem, fs.plan, fp.inode, fp.fblock);
    fp.fpos := fp.fpos + FBLOCK_DATA;
    left := size - FBLOCK_DATA;
    NextBlock(fs, fp, left > 0);
    PutBlock(v, v', base, s, buf, size);
    RoomAfter(room, len, size, fs.blocks.Room(), |fs.plan.chains[fp.inode]|);
  }

  lemma {:induction false} InHand(fs: FileSystem, fp: CoFile, base: Bytes, s: nat, buf: Bytes, size: nat)
    requires Writing(fs, fp, base, s, buf, size)
    ensures fp.inode in fs.plan.chains
  {
  }

  /** The whole blocks of buf, once the first block has been dealt with. */
  method WriteBlocks(fs: FileSystem, fp: CoFile, ghost base: Bytes, ghost s: nat, buf: Bytes, size0: nat) returns (size: nat)
    requires Writing(fs, fp, base, s, buf, size0) && size0 <= |buf|
    modifies fp, fs`sb, fs`plan, fs.store`cache, fs.store`mem, fs.blocks
    ensures size <= size0 && size < FBLOCK_DATA && Writing(fs, fp, base, s, buf, size)
    ensures Spends(old(fs.blocks.Room()), |old(fs.plan).chains[old(fp.inode)]|, fs.blocks.Room(), |fs.plan.chains[fp.inode]|, 0)
    ensures fp.inode == old(fp.inode) && fp.fpos == old(fp.fpos) + size0 - size && (!old(fp.nospc) ==> !fp.nospc)
    ensures Kept(old(fs.store.mem), old(fs.sb), old(fs.plan), fs.store.mem, fs.sb, fs.plan, fp.inode)
  {
    InHand(fs, fp, base, s, buf, size0);
    hide Writing, Kept;
    ghost var mem0, sb0, plan0 := fs.store.mem, fs.sb, fs.plan;
    ghost var room, len := fs.blocks.Room(), |fs.plan.chains[fp.inode]|;
    KeptSame(mem0, sb0, plan0, fp.inode);
    size := size0;
    while size >= FBLOCK_DATA
      invariant Writing(fs, fp, base, s, buf, size) && size <= size0
      invariant fp.inode == old(fp.inode) && fp.fpos == old(fp.fpos) + size0 - size && (!old(fp.nospc) ==> !fp.nospc)
      invariant Kept(mem0, sb0, plan0, fs.store.mem, fs.sb, fs.plan, fp.inode) && fp.inode in fs.plan.chains
      invariant Spends(room, len, fs.blocks.Room(), |fs.plan.chains[fp.inode]|, 0)
      decreases size
    {
      ghost var mem1, sb1, plan1 := fs.store.mem, fs.sb, fs.plan;
      size := WriteOne(fs, fp, base, s, buf, size);
      KeptTwice(mem0, sb0, plan0, mem1, sb1, plan1, fs.store.mem, fs.sb, fs.plan, fp.inode);
    }
  }

  /** A file made since the last flush, with its last block at hand and room for
      size bytes more. */
  ghost predicate Extending(fs: FileSystem, fp: CoFile, size: nat)
    reads fs, fs.store, fs.blocks, fs.inodes, fp
  {
    && fs.Valid() && fp.curblock != 0
    && Growing(fs.store.mem, fs.sb, fs.plan, fs.cplan.own.Keys, fp.inode, fp.curblock, fp.fblock)
    && RoomFor(fs.blocks.Room(), |fs.plan.chains[fp.inode]|, size)
  }

  lemma {:induction false} ExtendingIs(fs: FileSystem, fp: CoFile, size: nat)
    requires Extending(fs, fp, size)
    ensures fs.Valid() && fp.curblock != 0 && fp.fblock.Piece? && |fp.fblock.data| == FBLOCK_DATA && fp.inode in fs.plan.chains
    ensures Growing(fs.store.mem, fs.sb, fs.plan, fs.cplan.own.Keys, fp.inode, fp.curblock, fp.fblock)
    ensures RoomFor(fs.blocks.Room(), |fs.plan.chains[fp.inode]|, size)
    ensures size >= FBLOCK_DATA ==> fs.blocks.Room() >= 3 && |fs.plan.chains[fp.inode]| < 0x10000
    ensures |View(fs.store.mem, fs.plan, fp.inode, fp.fblock)| == FBLOCK_DATA * |fs.plan.chains[fp.inode]|
    ensures |fs.plan.chains[fp.inode]| > 0
  {
    hide View, FileSystem.Valid, InodeAt, FileData;
    GrowingIs(fs.store.mem, fs.sb, fs.plan, fs.cplan.own.Keys, fp.inode, fp.curblock, fp.fblock);
    if size >= FBLOCK_DATA { RoomLeft(fs.blocks.Room(), |fs.plan.chains[fp.inode]|, size); }
  }

  lemma {:induction false} NowWriting(fs: FileSystem, fp: CoFile, base: Bytes, s: nat, buf: Bytes, size: nat)
    requires fs.Valid() && fp.curblock != 0 && fp.fblock.Piece? && fp.inode in fs.plan.chains
    requires Growing(fs.store.mem, fs.sb, fs.plan, fs.cplan.own.Keys, fp.inode, fp.curblock, fp.fblock)
    requires RoomFor(fs.blocks.Room(), |fs.plan.chains[fp.inode]|, size)
    requires PutSoFar(View(fs.store.mem, fs.plan, fp.inode, fp.fblock), base, s, buf, size)
    ensures Writing(fs, fp, base, s, buf, size)
  {
  }

  /** The file's bytes after the block at hand took `bytes` at offset `at`. */
  lemma {:induction false} FilledAt(fs: FileSystem, fp: CoFile, size: nat, at: nat, bytes: Bytes)
    requires Extending(fs, fp, size) && at + |bytes| <= FBLOCK_DATA
    ensures fp.fblock.Piece? && |fp.fblock.data| == FBLOCK_DATA
    ensures var fblock' := fp.fblock.(data := fp.fblock.data[..at] + bytes + fp.fblock.data[at + |bytes|..]);
      var v := View(fs.store.mem, fs.plan, fp.inode, fp.fblock);
      && |v| >= FBLOCK_DATA
      && Growing(fs.store.mem, fs.sb, fs.plan, fs.cplan.own.Keys, fp.inode, fp.curblock, fblock')
      && View(fs.store.mem, fs.plan, fp.inode, fblock')
         == v[..|v| - FBLOCK_DATA + at] + bytes + v[|v| - FBLOCK_DATA + at + |bytes|..]
  {
    hide View, FileSystem.Valid, Growing, Extending;
    ExtendingIs(fs, fp, size);
    Filled(fs.store.mem, fs.sb, fs.plan, fs.cplan.own.Keys, fp.inode, fp.curblock, fp.fblock, at, bytes);
    var v, q := View(fs.store.mem, fs.plan, fp.inode, fp.fblock), FBLOCK_DATA * (|fs.plan.chains[fp.inode]| - 1);
    assert q == |v| - FBLOCK_DATA && q >= 0;
  }

  /** The first part of buf fills the block at hand to its end. */
  method WriteFirst(fs: FileSystem, fp: CoFile, ghost base: Bytes, ghost s: nat, buf: Bytes) returns (size: nat)
    requires Extending(fs, fp, |buf| + FBLOCK_DATA) && |buf| >= FBLOCK_DATA - fp.fpos % FBLOCK_DATA
    requires base == View(fs.store.mem, fs.plan, fp.inode, fp.fblock) && s + FBLOCK_DATA - fp.fpos % FBLOCK_DATA == |base|
    modifies fp, fs`sb, fs`plan, fs.store`cache, fs.store`mem, fs.blocks
    ensures size == |buf| - (FBLOCK_DATA - old(fp.fpos) % FBLOCK_DATA) && Writing(fs, fp, base, s, buf, size)
    ensures Spends(old(fs.blocks.Room()), |old(fs.plan).chains[old(fp.inode)]|, fs.blocks.Room(), |fs.plan.chains[fp.inode]|, 0)
    ensures fp.inode == old(fp.inode) && fp.fpos == old(fp.fpos) + |buf| - size && (!old(fp.nospc) ==> !fp.nospc)
    ensures Kept(old(fs.store.mem), old(fs.sb), old(fs.plan), fs.store.mem, fs.sb, fs.plan, fp.inode)
  {
    hide Growing, Kept, View, FileSystem.Valid, PutSoFar, RoomFor, Extending, Writing;
    var fboff := fp.fpos % FBLOCK_DATA;
    var fbleft := FBLOCK_DATA - fboff;
    ExtendingIs(fs, fp, |buf| + FBLOCK_DATA);
    FilledAt(fs, fp, |buf| + FBLOCK_DATA, fboff, buf[..fbleft]);
    ghost var room, len := fs.blocks.Room(), |fs.plan.chains[fp.inode]|;
    Fill(fp, fboff, buf[..fbleft]);
    ghost var v := View(fs.store.mem, fs.plan, fp.inode, fp.fblock);
    fp.fpos := fp.fpos + fbleft;
    size := |buf| - fbleft;
    NextBlock(fs, fp, size > 0);
    PutFirst(v, base, s, buf, fbleft, len);
    RoomFirst(room, len, |buf|, size, fs.blocks.Room(), |fs.plan.chains[fp.inode]|);
    NowWriting(fs, fp, base, s, buf, size);
  }

  lemma {:induction false} RoomFirst(room: nat, len: nat, all: nat, size: nat, room': nat, len': nat)
    requires RoomFor(room, len, all + FBLOCK_DATA) && size < all
    requires room' >= room - 2 && len' <= len + 1
    ensures RoomFor(room', len', size)
  {
    assert (all + FBLOCK_DATA) / FBLOCK_DATA == all / FBLOCK_DATA + 1;
    assert size / FBLOCK_DATA <= all / FBLOCK_DATA;
  }

  lemma {:induction false} WritingIs(fs: FileSystem, fp: CoFile, base: Bytes, s: nat, buf: Bytes, size: nat)
    requires Writing(fs, fp, base, s, buf, size)
    ensures Extending(fs, fp, size) && PutSoFar(View(fs.store.mem, fs.plan, fp.inode, fp.fblock), base, s, buf, size)
  {
    hide View, FileSystem.Valid, PutSoFar, RoomFor;
    hide InodeAt, FileData;
  }

  lemma {:induction false} LessRoom(fs: FileSystem, fp: CoFile, size: nat, less: nat)
    requires Extending(fs, fp, size) && less <= size
    ensures Extending(fs, fp, less)
  {
    hide View, FileSystem.Valid, Growing;
    assert less / FBLOCK_DATA <= size / FBLOCK_DATA;
  }

  lemma {:induction false} WholeMany(n: nat)
    ensures FBLOCK_DATA * n % FBLOCK_DATA == 0
  {
  }

  lemma {:induction false} PutNone(base: Bytes, s: nat, buf: Bytes)
    requires s <= |base| && buf == []
    ensures Put(base, s, buf) == base
  {
  }

  /** crfs_write up to the last block it writes, which it saves. */
  method WriteData(fs: FileSystem, fp: CoFile, ghost base: Bytes, ghost s: nat, buf: Bytes)
    requires Extending(fs, fp, |buf| + FBLOCK_DATA)
    requires base == View(fs.store.mem, fs.plan, fp.inode, fp.fblock) && s + FBLOCK_DATA - fp.fpos % FBLOCK_DATA == |base|
    modifies fp, fs`sb, fs`plan, fs.store`cache, fs.store`mem, fs.blocks
    ensures Extending(fs, fp, 0) && fp.fblock == Get(fs.store.mem, fp.curblock)
    ensures Spends(old(fs.blocks.Room()), |old(fs.plan).chains[old(fp.inode)]|, fs.blocks.Room(), |fs.plan.chains[fp.inode]|, 0)
    ensures View(fs.store.mem, fs.plan, fp.inode, fp.fblock) == Put(base, s, buf)
    ensures fp.inode == old(fp.inode) && fp.fpos == old(fp.fpos) + |buf| && (!old(fp.nospc) ==> !fp.nospc)
    ensures Kept(old(fs.store.mem), old(fs.sb), old(fs.plan), fs.store.mem, fs.sb, fs.plan, fp.inode)
  {
    hide Growing, Kept, View, FileSystem.Valid, PutSoFar, RoomFor, Extending, Writing, Put;
    ghost var mem0, sb0, plan0 := fs.store.mem, fs.sb, fs.plan;
    KeptSame(mem0, sb0, plan0, fp.inode);
    ExtendingIs(fs, fp, |buf| + FBLOCK_DATA);
    WholeMany(|fs.plan.chains[fp.inode]|);
    var fboff := fp.fpos % FBLOCK_DATA;
    if |buf| >= FBLOCK_DATA - fboff {
      var size := WriteFirst(fs, fp, base, s, buf);
      ghost var mem1, sb1, plan1 := fs.store.mem, fs.sb, fs.plan;
      size := WriteBlocks(fs, fp, base, s, buf, size);
      KeptTwice(mem0, sb0, plan0, mem1, sb1, plan1, fs.store.mem, fs.sb, fs.plan, fp.inode);
      LastPart(fs, fp, base, s, buf, size);
    } else {
      ShortPart(fs, fp, base, s, buf);
    }
    ghost var mem2, sb2, plan2 := fs.store.mem, fs.sb, fs.plan;
    SaveHere(fs, fp);
    KeptTwice(mem0, sb0, plan0, mem2, sb2, plan2, fs.store.mem, fs.sb, fs.plan, fp.inode);
  }

  /** All of buf goes into the block at hand, and does not fill it. */
  method ShortPart(fs: FileSystem, fp: CoFile, ghost base: Bytes, ghost s: nat, buf: Bytes)
    requires Extending(fs, fp, |buf| + FBLOCK_DATA) && fp.fpos % FBLOCK_DATA + |buf| < FBLOCK_DATA
    requires base == View(fs.store.mem, fs.plan, fp.inode, fp.fblock) && s + FBLOCK_DATA - fp.fpos % FBLOCK_DATA == |base|
    modifies fp`fpos, fp`fblock
    ensures Extending(fs, fp, 0) && fp.fpos == old(fp.fpos) + |buf|
    ensures View(fs.store.mem, fs.plan, fp.inode, fp.fblock) == Put(base, s, buf)
  {
    hide Growing, View, FileSystem.Valid, RoomFor, Extending, Put;
    LessRoom(fs, fp, |buf| + FBLOCK_DATA, 0);
    ExtendingIs(fs, fp, 0);
    RoomIs(fs.blocks.Room(), |fs.plan.chains[fp.inode]|);
    if |buf| > 0 {
      var fboff := fp.fpos % FBLOCK_DATA;
      FilledAt(fs, fp, |buf| + FBLOCK_DATA, fboff, buf);
      Fill(fp, fboff, buf);
      fp.fpos := fp.fpos + |buf|;
      PutShort(base, s, buf);
      NowExtending(fs, fp);
    } else {
      PutNone(base, s, buf);
    }
  }

  /** "crfs_write_block(fp->F_curblock, fp->F_fblock)", the last one. */
  method SaveHere(fs: FileSystem, fp: CoFile)
    requires Extending(fs, fp, 0)
    modifies fs.store`cache, fs.store`mem
    ensures Extending(fs, fp, 0) && fp.fblock == Get(fs.store.mem, fp.curblock)
    ensures View(fs.store.mem, fs.plan, fp.inode, fp.fblock) == View(old(fs.store.mem), fs.plan, fp.inode, fp.fblock)
    ensures Kept(old(fs.store.mem), fs.sb, fs.plan, fs.store.mem, fs.sb, fs.plan, fp.inode)
  {
    hide Growing, View, FileSystem.Valid, RoomFor, Extending, Kept;
    ExtendingIs(fs, fp, 0);
    RoomIs(fs.blocks.Room(), |fs.plan.chains[fp.inode]|);
    Save(fs, fp);
    NowExtending(fs, fp);
  }

  lemma {:induction false} NowExtending(fs: FileSystem, fp: CoFile)
    requires fs.Valid() && fp.curblock != 0 && fs.blocks.Room() >= 1
    requires Growing(fs.store.mem, fs.sb, fs.plan, fs.cplan.own.Keys, fp.inode, fp.curblock, fp.fblock)
    requires fp.inode in fs.plan.chains && |fs.plan.chains[fp.inode]| <= 0x10000
    ensures Extending(fs, fp, 0)
  {
  }

  /** What is left of buf goes to the start of the block at hand. */
  method LastPart(fs: FileSystem, fp: CoFile, ghost base: Bytes, ghost s: nat, buf: Bytes, size: nat)
    requires Writing(fs, fp, base, s, buf, size) && size < FBLOCK_DATA && size <= |buf|
    requires |base| % FBLOCK_DATA == 0 && |base| <= s + |buf| - size
    modifies fp`fpos, fp`fblock
    ensures Extending(fs, fp, 0)
    ensures View(fs.store.mem, fs.plan, fp.inode, fp.fblock) == Put(base, s, buf) && fp.fpos == old(fp.fpos) + size
  {
    hide Growing, View, FileSystem.Valid, PutSoFar, RoomFor, Extending, Writing, Put;
    WritingIs(fs, fp, base, s, buf, size);
    LessRoom(fs, fp, size, 0);
    ExtendingIs(fs, fp, 0);
    if size > 0 {
      ghost var v := View(fs.store.mem, fs.plan, fp.inode, fp.fblock);
      FilledAt(fs, fp, size, 0, buf[|buf| - size..]);
      Fill(fp, 0, buf[|buf| - size..]);
      fp.fpos := fp.fpos + size;
      PutRest(v, View(fs.store.mem, fs.plan, fp.inode, fp.fblock), base, s, buf, size);
      RoomIs(fs.blocks.Room(), |fs.plan.chains[fp.inode]|);
      NowExtending(fs, fp);
    } else {
      PutAll(View(fs.store.mem, fs.plan, fp.inode, fp.fblock), base, s, buf);
    }
  }

  lemma {:induction false} RoomIs(room: nat, len: nat)
    requires RoomFor(room, len, 0)
    ensures room >= 1 && len <= 0x10000
  {
  }

  /** What is at hand has been saved. */
  ghost predicate AtHandSaved(mem: Image, curblock: nat, fblock: Block) {
    curblock != 0 ==> fblock == Get(mem, curblock)
  }

  lemma {:induction false} SavedView(mem: Image, sb: Super, plan: Plan, cown: set<nat>, i: nat, curblock: nat, fblock: Block)
    requires Growing(mem, sb, plan, cown, i, curblock, fblock) && AtHandSaved(mem, curblock, fblock)
    ensures View(mem, plan, i, fblock) == FileOf(mem, sb, plan, i).data
    ensures curblock == 0 <==> FileOf(mem, sb, plan, i).data == []
    ensures |FileOf(mem, sb, plan, i).data| == FBLOCK_DATA * |plan.chains[i]|
  {
    hide InodeAt;
    var data := FileData(mem, plan.chains[i]);
    ConcatLength(data);
    assert WithLast(data, fblock.data) == data;
  }

  /** crfs_write, at the end of a file made since the last flush. */
  method Write(fs: FileSystem, fp: CoFile, buf: Bytes) returns (nwrote: nat)
    requires fs.Valid() && Growing(fs.store.mem, fs.sb, fs.plan, fs.cplan.own.Keys, fp.inode, fp.curblock, fp.fblock)
    requires AtHandSaved(fs.store.mem, fp.curblock, fp.fblock) && !fp.nospc
    requires AtEnd(FileOf(fs.store.mem, fs.sb, fs.plan, fp.inode), fp.fpos)
    requires fp.inode in fs.plan.chains && RoomFor(fs.blocks.Room(), |fs.plan.chains[fp.inode]|, |buf| + 2 * FBLOCK_DATA)
    modifies fp, fs`sb, fs`plan, fs.store`cache, fs.store`mem, fs.blocks
    ensures fs.Valid() && Growing(fs.store.mem, fs.sb, fs.plan, fs.cplan.own.Keys, fp.inode, fp.curblock, fp.fblock)
    ensures AtHandSaved(fs.store.mem, fp.curblock, fp.fblock) && !fp.nospc && fp.curblock != 0
    ensures nwrote == |buf| && fp.inode == old(fp.inode) && fp.fpos == old(fp.fpos) + |buf|
    ensures fp.inode in fs.plan.chains
    ensures Spends(old(fs.blocks.Room()), |old(fs.plan).chains[old(fp.inode)]|, fs.blocks.Room(), |fs.plan.chains[fp.inode]|, 1)
    ensures FileOf(fs.store.mem, fs.sb, fs.plan, fp.inode)
         == Extended(FileOf(old(fs.store.mem), old(fs.sb), old(fs.plan), fp.inode), old(fp.fpos), buf)
    ensures OthersSame(old(fs.store.mem), old(fs.sb), old(fs.plan), fs.store.mem, fs.sb, fs.plan, fp.inode)
  {
    hide Growing, Kept, View, FileSystem.Valid, RoomFor, Extending, Put, FileOf, OthersSame, InodeAt, AtHandSaved, FileData;
    hide AtEnd, Start;
    ghost var mem0, sb0, plan0, p := fs.store.mem, fs.sb, fs.plan, fp.fpos;
    ghost var f := FileOf(mem0, sb0, plan0, fp.inode);
    Extend(fs, fp, buf);
    ghost var mem2, sb2, plan2 := fs.store.mem, fs.sb, fs.plan;
    SetSize(fs, fp);
    nwrote := |buf|;
    SavedStill(mem0, sb0, plan0, mem2, sb2, plan2, fs.store.mem, fs.sb, fs.plan, fs.cplan.own.Keys, fp.inode, fp.curblock, fp.fblock);
    HandSaved(fs.store.mem, fp.curblock, fp.fblock);
    WroteIs(f, p, buf, FileOf(fs.store.mem, fs.sb, fs.plan, fp.inode));
  }

  /** crfs_write up to where it sets the size. */
  method Extend(fs: FileSystem, fp: CoFile, buf: Bytes)
    requires fs.Valid() && Growing(fs.store.mem, fs.sb, fs.plan, fs.cplan.own.Keys, fp.inode, fp.curblock, fp.fblock)
    requires AtHandSaved(fs.store.mem, fp.curblock, fp.fblock) && !fp.nospc
    requires AtEnd(FileOf(fs.store.mem, fs.sb, fs.plan, fp.inode), fp.fpos)
    requires fp.inode in fs.plan.chains && RoomFor(fs.blocks.Room(), |fs.plan.chains[fp.inode]|, |buf| + 2 * FBLOCK_DATA)
    modifies fp, fs`sb, fs`plan, fs.store`cache, fs.store`mem, fs.blocks
    ensures fs.Valid() && Growing(fs.store.mem, fs.sb, fs.plan, fs.cplan.own.Keys, fp.inode, fp.curblock, fp.fblock)
    ensures fp.curblock != 0 && fp.fblock.Piece? && fp.fblock == Get(fs.store.mem, fp.curblock) && fs.blocks.Room() >= 1
    ensures fp.inode in fs.plan.chains && fp.inode == old(fp.inode) && fp.fpos == old(fp.fpos) + |buf| && !fp.nospc
    ensures Spends(old(fs.blocks.Room()), |old(fs.plan).chains[old(fp.inode)]|, fs.blocks.Room(), |fs.plan.chains[fp.inode]|, 0)
    ensures var f := FileOf(old(fs.store.mem), old(fs.sb), old(fs.plan), fp.inode);
      AtEnd(f, old(fp.fpos)) && FileOf(fs.store.mem, fs.sb, fs.plan, fp.inode).data == Put(AtHand(f), Start(f, old(fp.fpos)), buf)
    ensures Kept(old(fs.store.mem), old(fs.sb), old(fs.plan), fs.store.mem, fs.sb, fs.plan, fp.inode)
  {
    hide Growing, Kept, View, FileSystem.Valid, RoomFor, Extending, Put, FileOf, AtHandSaved, AtEnd, Start, AtHand;
    ghost var mem0, sb0, plan0, p := fs.store.mem, fs.sb, fs.plan, fp.fpos;
    ghost var f := FileOf(mem0, sb0, plan0, fp.inode);
    FirstBlock(fs, fp, |buf|);
    ghost var mem1, sb1, plan1 := fs.store.mem, fs.sb, fs.plan;
    StartIs(f, p);
    WriteData(fs, fp, AtHand(f), Start(f, p), buf);
    KeptTwice(mem0, sb0, plan0, mem1, sb1, plan1, fs.store.mem, fs.sb, fs.plan, fp.inode);
    ExtendingIs(fs, fp, 0);
    RoomIs(fs.blocks.Room(), |fs.plan.chains[fp.inode]|);
    HandSaved(fs.store.mem, fp.curblock, fp.fblock);
    SavedView(fs.store.mem, fs.sb, fs.plan, fs.cplan.own.Keys, fp.inode, fp.curblock, fp.fblock);
  }

  lemma {:induction false} WroteIs(f: File, p: nat, buf: Bytes, f': File)
    requires AtEnd(f, p) && f'.data == Put(AtHand(f), Start(f, p), buf)
    requires f'.size == if f.size < p + |buf| then p + |buf| else f.size
    ensures f' == Extended(f, p, buf)
  {
  }

  lemma {:induction false} HandSaved(mem: Image, curblock: nat, fblock: Block)
    requires fblock == Get(mem, curblock)
    ensures AtHandSaved(mem, curblock, fblock)
  {
  }

  lemma {:induction false} StartIs(f: File, p: nat)
    requires AtEnd(f, p)
    ensures Start(f, p) + FBLOCK_DATA - p % FBLOCK_DATA == |AtHand(f)| && Start(f, p) <= |AtHand(f)|
  {
    if f.data != [] {
      var a := |f.data| / FBLOCK_DATA;
      assert |f.data| == FBLOCK_DATA * a;
      if p != |f.data| && p > 0 {
        assert p == FBLOCK_DATA * (a - 1) + (p - FBLOCK_DATA * (a - 1));
      }
    }
  }

  /** Saving the size left the pieces as they were. */
  lemma {:induction false} SavedStill(mem0: Image, sb0: Super, plan0: Plan, mem: Image, sb: Super, plan: Plan,
                                      mem': Image, sb': Super, plan': Plan, cown: set<nat>, i: nat, curblock: nat, fblock: Block)
    requires Growing(mem, sb, plan, cown, i, curblock, fblock) && fblock == Get(mem, curblock) && curblock != 0
    requires Growing(mem', sb', plan', cown, i, curblock, fblock) && plan'.chains == plan.chains
    requires i in plan.chains && FileData(mem', plan.chains[i]) == FileData(mem, plan.chains[i])
    requires Kept(mem0, sb0, plan0, mem, sb, plan, i) && OthersSame(mem, sb, plan, mem', sb', plan', i)
    ensures FileOf(mem', sb', plan', i).data == FileOf(mem, sb, plan, i).data
    ensures FileOf(mem, sb, plan, i).size == FileOf(mem0, sb0, plan0, i).size
    ensures FileOf(mem', sb', plan', i).size == InodeAt(mem', sb', i).size && FileOf(mem, sb, plan, i).size == InodeAt(mem, sb, i).size
    ensures OthersSame(mem0, sb0, plan0, mem', sb', plan', i)
  {
    hide InodeAt, NodeAt, FileData, Growing;
  }

  /** "if we don't have a curblock ..., get one" */
  method FirstBlock(fs: FileSystem, fp: CoFile, n: nat)
    requires fs.Valid() && Growing(fs.store.mem, fs.sb, fs.plan, fs.cplan.own.Keys, fp.inode, fp.curblock, fp.fblock)
    requires AtHandSaved(fs.store.mem, fp.curblock, fp.fblock) && !fp.nospc
    requires fp.inode in fs.plan.chains && RoomFor(fs.blocks.Room(), |fs.plan.chains[fp.inode]|, n + 2 * FBLOCK_DATA)
    modifies fp, fs`sb, fs`plan, fs.store`cache, fs.store`mem, fs.blocks
    ensures Extending(fs, fp, n + FBLOCK_DATA) && fp.inode == old(fp.inode) && fp.fpos == old(fp.fpos) && !fp.nospc
    ensures Spends(old(fs.blocks.Room()), |old(fs.plan).chains[old(fp.inode)]|, fs.blocks.Room(), |fs.plan.chains[fp.inode]|, 0)
    ensures View(fs.store.mem, fs.plan, fp.inode, fp.fblock)
         == AtHand(FileOf(old(fs.store.mem), old(fs.sb), old(fs.plan), fp.inode))
    ensures Kept(old(fs.store.mem), old(fs.sb), old(fs.plan), fs.store.mem, fs.sb, fs.plan, fp.inode)
  {
    hide Growing, Kept, View, FileSystem.Valid, RoomFor, Extending, FileOf, AtHandSaved;
    GrowingIs(fs.store.mem, fs.sb, fs.plan, fs.cplan.own.Keys, fp.inode, fp.curblock, fp.fblock);
    SavedView(fs.store.mem, fs.sb, fs.plan, fs.cplan.own.Keys, fp.inode, fp.curblock, fp.fblock);
    KeptSame(fs.store.mem, fs.sb, fs.plan, fp.inode);
    ghost var room, len := fs.blocks.Room(), |fs.plan.chains[fp.inode]|;
    RoomLeft(room, len, n + 2 * FBLOCK_DATA);
    if fp.curblock == 0 || fp.nospc {
      Grow(fs, fp);
    }
    RoomOnce(room, len, n, fs.blocks.Room(), |fs.plan.chains[fp.inode]|);
    ExtendingNow(fs, fp, n + FBLOCK_DATA);
  }

  lemma {:induction false} RoomOnce(room: nat, len: nat, n: nat, room': nat, len': nat)
    requires RoomFor(room, len, n + 2 * FBLOCK_DATA) && room' >= room - 2 && len' <= len + 1
    ensures RoomFor(room', len', n + FBLOCK_DATA)
  {
    assert (n + 2 * FBLOCK_DATA) / FBLOCK_DATA == (n + FBLOCK_DATA) / FBLOCK_DATA + 1;
  }

  lemma {:induction false} ExtendingNow(fs: FileSystem, fp: CoFile, size: nat)
    requires fs.Valid() && fp.curblock != 0
    requires Growing(fs.store.mem, fs.sb, fs.plan, fs.cplan.own.Keys, fp.inode, fp.curblock, fp.fblock)
    requires fp.inode in fs.plan.chains && RoomFor(fs.blocks.Room(), |fs.plan.chains[fp.inode]|, size)
    ensures Extending(fs, fp, size)
  {
  }

  // ------------------------------------------------- whole runs of reads and writes

  /** crfs_open of the file that the path leads to: its first block at hand. */
  method Open(fs: FileSystem, i: nat) returns (fp: CoFile)
    requires fs.Valid() && IsFile(fs.store.mem, fs.sb, fs.plan, i)
    modifies fs.store`cache
    ensures fs.Valid() && fresh(fp) && fp.inode == i && fp.fpos == 0 && !fp.nospc
    ensures Opened(fs.store.mem, fs.sb, fs.plan, i, 0, fp.curblock, fp.fblock)
    ensures fs.plan.chains[i] == [] ==>
      && Growing(fs.store.mem, fs.sb, fs.plan, fs.cplan.own.Keys, i, fp.curblock, fp.fblock)
      && AtHandSaved(fs.store.mem, fp.curblock, fp.fblock) && FileOf(fs.store.mem, fs.sb, fs.plan, i).data == []
  {
    hide FileSystem.Valid, FileSystem.Ready, WellFormed, InodeAt, Opened, Growing, AtHandSaved, FileOf, Chained, EndsOk;
    fs.ValidIs();
    FileFacts(fs.store.mem, fs.sb, fs.plan, i);
    var inode := LookupInode(fs, i);
    var fblock := Piece(0, 0, 0, Zeros(FBLOCK_DATA));
    if inode.first != 0 {
      fblock := LoadBlock(fs, inode.first);
    }
    fp := new CoFile(i, inode.first, fblock);
    FirstPiece(fs.store.mem, fs.sb, fs.plan, i, inode, fblock);
    NotBlockZero(fs);
    if fs.plan.chains[i] == [] {
      NoFirst(inode, fs.plan.chains[i]);
      NoPieces(fs.store.mem, fs.sb, fs.plan, fs.cplan.own.Keys, i, fblock);
    }
  }

  /** crfs_read_block */
  method LoadBlock(fs: FileSystem, b: nat) returns (data: Block)
    requires fs.Valid()
    modifies fs.store`cache
    ensures fs.Valid() && data == Get(fs.store.mem, b)
  {
    hide *;
    fs.ValidIs();
    fs.ReadyIs();
    data := fs.store.Read(b);
    fs.NowReady();
    fs.NowValid();
  }

  lemma {:induction false} FirstPiece(mem: Image, sb: Super, plan: Plan, i: nat, inode: Inode, fblock: Block)
    requires IsFile(mem, sb, plan, i) && Chained(mem, plan.chains[i]) && EndsOk(inode, plan.chains[i])
    requires inode.first != 0 ==> fblock == Get(mem, inode.first)
    ensures Opened(mem, sb, plan, i, 0, inode.first, fblock)
  {
    hide InodeAt, FileOk;
    ConcatLength(FileData(mem, plan.chains[i]));
  }

  lemma {:induction false} NotBlockZero(fs: FileSystem)
    requires fs.Valid()
    ensures 0 !in fs.cplan.own
  {
  }

  lemma {:induction false} NoFirst(inode: Inode, chain: seq<nat>)
    requires EndsOk(inode, chain) && chain == []
    ensures inode.first == 0
  {
  }

  lemma {:induction false} NoPieces(mem: Image, sb: Super, plan: Plan, cown: set<nat>, i: nat, fblock: Block)
    requires IsFile(mem, sb, plan, i) && plan.chains[i] == [] && fblock == Piece(0, 0, 0, Zeros(FBLOCK_DATA)) && 0 !in cown
    ensures Growing(mem, sb, plan, cown, i, 0, fblock) && AtHandSaved(mem, 0, fblock)
    ensures FileOf(mem, sb, plan, i).data == []
  {
    hide InodeAt;
  }

  /** Reads of the given sizes, one after another: consecutive parts of the file. */
  method ReadAll(fs: FileSystem, fp: CoFile, sizes: seq<nat>) returns (parts: seq<Bytes>)
    requires fs.Valid() && Opened(fs.store.mem, fs.sb, fs.plan, fp.inode, fp.fpos, fp.curblock, fp.fblock)
    requires Holds(FileOf(fs.store.mem, fs.sb, fs.plan, fp.inode))
    modifies fp`fpos, fp`curblock, fp`fblock, fs.store`cache
    ensures fs.Valid() && parts == ReadMany(FileOf(fs.store.mem, fs.sb, fs.plan, fp.inode), old(fp.fpos), sizes)
  {
    hide FileSystem.Valid, IsFile, Positioned, FileOf, Opened, ReadMany, ReadOne, ReadGives, Wanted, Holds;
    ghost var f, p0 := FileOf(fs.store.mem, fs.sb, fs.plan, fp.inode), fp.fpos;
    parts := [];
    assert sizes[0..] == sizes;
    assert [] + ReadMany(f, p0, sizes) == ReadMany(f, p0, sizes);
    for k := 0 to |sizes|
      invariant fs.Valid() && Opened(fs.store.mem, fs.sb, fs.plan, fp.inode, fp.fpos, fp.curblock, fp.fblock)
      invariant ReadMany(f, p0, sizes) == parts + ReadMany(f, fp.fpos, sizes[k..])
    {
      ghost var p := fp.fpos;
      var part := Read(fs, fp, sizes[k]);
      GaveOne(f, p, sizes[k], part, fp.fpos);
      StillOpened(fs.store.mem, fs.sb, fs.plan, fp.inode, fp.fpos, fp.curblock, fp.fblock);
      ManyStep(f, p, sizes, k, parts);
      parts := parts + [part];
    }
    ManyNone(f, fp.fpos, sizes, parts);
  }

  lemma {:induction false} ManyStep(f: File, p: nat, sizes: seq<nat>, k: nat, parts: seq<Bytes>)
    requires Holds(f) && k < |sizes|
    ensures parts + ReadMany(f, p, sizes[k..])
         == parts + [ReadOne(f, p, sizes[k])] + ReadMany(f, p + Wanted(f, p, sizes[k]), sizes[k + 1..])
  {
    hide ReadOne, Wanted, Holds;
    assert sizes[k..][0] == sizes[k] && sizes[k..][1..] == sizes[k + 1..];
  }

  lemma {:induction false} ManyNone(f: File, p: nat, sizes: seq<nat>, parts: seq<Bytes>)
    requires Holds(f)
    ensures parts + ReadMany(f, p, sizes[|sizes|..]) == parts
  {
    assert sizes[|sizes|..] == [];
  }

  lemma {:induction false} GaveOne(f: File, p: nat, n: nat, got: Bytes, p': nat)
    requires Holds(f) && ReadGives(f, p, n, got, p')
    ensures got == ReadOne(f, p, n) && p' == p + Wanted(f, p, n)
  {
  }

  lemma {:induction false} StillOpened(mem: Image, sb: Super, plan: Plan, i: nat, p: nat, curblock: nat, fblock: Block)
    requires IsFile(mem, sb, plan, i) && Positioned(mem, plan.chains[i], p, curblock, fblock) && Holds(FileOf(mem, sb, plan, i))
    ensures Opened(mem, sb, plan, i, p, curblock, fblock)
  {
  }

  /** A file that has been written to its end, and can be written on. */
  ghost predicate WriteReady(fs: FileSystem, fp: CoFile)
    reads fs, fs.store, fs.blocks, fs.inodes, fp
  {
    && fs.Valid() && Growing(fs.store.mem, fs.sb, fs.plan, fs.cplan.own.Keys, fp.inode, fp.curblock, fp.fblock)
    && AtHandSaved(fs.store.mem, fp.curblock, fp.fblock) && !fp.nospc
  }

  /** Writes of bufs, one after another, none starting where the one before it ended
      on a block boundary. */
  method WriteAll(fs: FileSystem, fp: CoFile, bufs: seq<Bytes>)
    requires WriteReady(fs, fp) && Smooth(fp.fpos, bufs)
    requires AtEnd(FileOf(fs.store.mem, fs.sb, fs.plan, fp.inode), fp.fpos)
    requires EnoughFor(fs, fp, bufs)
    modifies fp, fs`sb, fs`plan, fs.store`cache, fs.store`mem, fs.blocks
    ensures WriteReady(fs, fp) && fp.inode == old(fp.inode)
    ensures FileOf(fs.store.mem, fs.sb, fs.plan, fp.inode)
         == Written(FileOf(old(fs.store.mem), old(fs.sb), old(fs.plan), fp.inode), old(fp.fpos), bufs)
    ensures OthersSame(old(fs.store.mem), old(fs.sb), old(fs.plan), fs.store.mem, fs.sb, fs.plan, fp.inode)
  {
    hide WriteReady, FileOf, OthersSame, AtEnd, Smooth, Written, EnoughFor;
    ghost var mem0, sb0, plan0 := fs.store.mem, fs.sb, fs.plan;
    ghost var f0, p0 := FileOf(mem0, sb0, plan0, fp.inode), fp.fpos;
    SameOthers(mem0, sb0, plan0, fp.inode);
    assert bufs[0..] == bufs;
    for k := 0 to |bufs|
      invariant WriteReady(fs, fp) && fp.inode == old(fp.inode) && Smooth(fp.fpos, bufs[k..])
      invariant AtEnd(FileOf(fs.store.mem, fs.sb, fs.plan, fp.inode), fp.fpos) && EnoughFor(fs, fp, bufs[k..])
      invariant Written(f0, p0, bufs) == Written(FileOf(fs.store.mem, fs.sb, fs.plan, fp.inode), fp.fpos, bufs[k..])
      invariant OthersSame(mem0, sb0, plan0, fs.store.mem, fs.sb, fs.plan, fp.inode)
    {
      ghost var mem1, sb1, plan1, p1 := fs.store.mem, fs.sb, fs.plan, fp.fpos;
      ghost var f1 := FileOf(mem1, sb1, plan1, fp.inode);
      assert bufs[k..][0] == bufs[k] && bufs[k..][1..] == bufs[k + 1..];
      WriteNext(fs, fp, bufs[k..]);
      WrittenStep(f1, p1, bufs[k..]);
      OthersTwice(mem0, sb0, plan0, mem1, sb1, plan1, fs.store.mem, fs.sb, fs.plan, fp.inode);
    }
    assert bufs[|bufs|..] == [];
    WrittenNone(FileOf(fs.store.mem, fs.sb, fs.plan, fp.inode), fp.fpos);
  }

  lemma {:induction false} WrittenNone(f: File, p: nat)
    requires AtEnd(f, p)
    ensures Smooth(p, []) && Written(f, p, []) == f
  {
  }

  lemma {:induction false} WrittenStep(f: File, p: nat, bufs: seq<Bytes>)
    requires AtEnd(f, p) && Smooth(p, bufs) && bufs != []
    ensures AtEnd(Extended(f, p, bufs[0]), p + |bufs[0]|) && Smooth(p + |bufs[0]|, bufs[1..])
    ensures Written(f, p, bufs) == Written(Extended(f, p, bufs[0]), p + |bufs[0]|, bufs[1..])
  {
    StillAtEnd(f, p, bufs[0]);
  }

  lemma {:induction false} OthersTwice(mem: Image, sb: Super, plan: Plan, mem1: Image, sb1: Super, plan1: Plan,
                                       mem2: Image, sb2: Super, plan2: Plan, i: nat)
    requires OthersSame(mem, sb, plan, mem1, sb1, plan1, i) && OthersSame(mem1, sb1, plan1, mem2, sb2, plan2, i)
    ensures OthersSame(mem, sb, plan, mem2, sb2, plan2, i)
  {
  }

  /** Free blocks, and places in the chain, for all of bufs. */
  ghost predicate EnoughFor(fs: FileSystem, fp: CoFile, bufs: seq<Bytes>)
    reads fs, fs.blocks, fp
  {
    && fp.inode in fs.plan.chains && fs.blocks.Room() >= 2 * BlocksFor(bufs) + |bufs|
    && |fs.plan.chains[fp.inode]| + BlocksFor(bufs) <= 0x10000
  }

  /** The next of the writes. */
  method WriteNext(fs: FileSystem, fp: CoFile, bufs: seq<Bytes>)
    requires WriteReady(fs, fp) && bufs != [] && EnoughFor(fs, fp, bufs)
    requires AtEnd(FileOf(fs.store.mem, fs.sb, fs.plan, fp.inode), fp.fpos)
    modifies fp, fs`sb, fs`plan, fs.store`cache, fs.store`mem, fs.blocks
    ensures WriteReady(fs, fp) && EnoughFor(fs, fp, bufs[1..])
    ensures fp.inode == old(fp.inode) && fp.fpos == old(fp.fpos) + |bufs[0]|
    ensures FileOf(fs.store.mem, fs.sb, fs.plan, fp.inode)
         == Extended(FileOf(old(fs.store.mem), old(fs.sb), old(fs.plan), fp.inode), old(fp.fpos), bufs[0])
    ensures OthersSame(old(fs.store.mem), old(fs.sb), old(fs.plan), fs.store.mem, fs.sb, fs.plan, fp.inode)
  {
    hide Growing, FileSystem.Valid, FileOf, OthersSame, AtEnd, Extended, AtHandSaved;
    ghost var f, p := FileOf(fs.store.mem, fs.sb, fs.plan, fp.inode), fp.fpos;
    ghost var room, len := fs.blocks.Room(), |fs.plan.chains[fp.inode]|;
    SavedView(fs.store.mem, fs.sb, fs.plan, fs.cplan.own.Keys, fp.inode, fp.curblock, fp.fblock);
    EnoughForOne(room, len, bufs);
    var n := Write(fs, fp, bufs[0]);
    SavedView(fs.store.mem, fs.sb, fs.plan, fs.cplan.own.Keys, fp.inode, fp.curblock, fp.fblock);
    BlocksAdded(f, p, bufs[0], len, |fs.plan.chains[fp.inode]|);
  }

  lemma {:induction false} EnoughForOne(room: nat, len: nat, bufs: seq<Bytes>)
    requires bufs != [] && room >= 2 * BlocksFor(bufs) + |bufs| && len + BlocksFor(bufs) <= 0x10000
    ensures RoomFor(room, len, |bufs[0]| + 2 * FBLOCK_DATA)
  {
    assert (|bufs[0]| + 2 * FBLOCK_DATA) / FBLOCK_DATA == |bufs[0]| / FBLOCK_DATA + 2;
  }

  /** What any series of writes puts into a new file, reads of any sizes give back. */
  method StoreAndLoad(fs: FileSystem, i: nat, bufs: seq<Bytes>, sizes: seq<nat>) returns (parts: seq<Bytes>)
    requires fs.Valid() && IsFile(fs.store.mem, fs.sb, fs.plan, i) && fs.plan.chains[i] == []
    requires FileOf(fs.store.mem, fs.sb, fs.plan, i).size == 0
    requires Smooth(0, bufs) && Sum(sizes) >= |Concat(bufs)|
    requires fs.blocks.Room() >= 2 * BlocksFor(bufs) + |bufs| && BlocksFor(bufs) <= 0x10000
    modifies fs`sb, fs`plan, fs.store`cache, fs.store`mem, fs.blocks
    ensures fs.Valid() && Concat(parts) == Concat(bufs)
    ensures OthersSame(old(fs.store.mem), old(fs.sb), old(fs.plan), fs.store.mem, fs.sb, fs.plan, i)
  {
    hide FileSystem.Valid, IsFile, FileOf, OthersSame, Growing, AtHandSaved, Smooth, Concat, Written, ReadMany, Sum, Opened;
    var fp := Open(fs, i);
    OpenedIs(fs.store.mem, fs.sb, fs.plan, i, 0, fp.curblock, fp.fblock);
    EmptyAtEnd(FileOf(fs.store.mem, fs.sb, fs.plan, i));
    WriteAll(fs, fp, bufs);
    ReadsBack(bufs, sizes);
    GrowingFile(fs.store.mem, fs.sb, fs.plan, fs.cplan.own.Keys, i, fp.curblock, fp.fblock);
    fp := Open(fs, i);
    parts := ReadAll(fs, fp, sizes);
  }

  lemma {:induction false} EmptyAtEnd(f: File)
    requires f.data == [] && f.size == 0
    ensures f == File([], 0) && AtEnd(f, 0)
  {
  }
}
