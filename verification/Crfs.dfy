/** The file system: phased commits. Whatever belongs to the committed tree is
    left alone until the flush that replaces it. */
module Crfs {
  import opened CrfsImage
  import opened CrfsFreemap
  import opened CrfsStore
  import FileContents

  const FILENAME_MAX: nat := 59

  /** SB_BLOCKNUM */
  function SuperNo(i: nat): nat {
    16 * i
  }

  const SUPERS: set<nat> := {0, 16}

  // ------------------------------------------------------------ the superblocks

  /** A superblock that mounting would accept. */
  ghost predicate Good(b: Block) {
    b.SuperBlock? && b.ok && b.sb.ver > 0
  }

  /** The best superblock of an image, by version. */
  ghost predicate Chosen(img: Image, sb: Super) {
    exists i: nat :: i < 2 && Good(Get(img, SuperNo(i))) && Get(img, SuperNo(i)).sb == sb
                  && forall j: nat :: j < 2 && j != i && Good(Get(img, SuperNo(j))) ==> Get(img, SuperNo(j)).sb.ver < sb.ver
  }

  /** The committed state: superblock number which, and its tree. */
  ghost predicate Committed(disk: Image, which: nat, sb: Super, plan: Plan) {
    && which < 2 && Get(disk, SuperNo(which)) == SuperBlock(sb, true) && sb.ver > 0 && WellFormed(disk, sb, plan)
    && (Good(Get(disk, SuperNo(1 - which))) ==> Get(disk, SuperNo(1 - which)).sb.ver < sb.ver)
  }

  lemma {:induction false} CommittedChosen(disk: Image, which: nat, sb: Super, plan: Plan)
    requires Committed(disk, which, sb, plan)
    ensures Chosen(disk, sb)
  {
    hide WellFormed;
    assert Good(Get(disk, SuperNo(which)));
  }

  // ------------------------------------------------------------- the block map

  /** How the sets of blocks lie: in use are the blocks of the current tree and the
      superblocks, and no others; the committed tree is in those and the freed ones, and
      dirty blocks are apart from it. */
  ghost predicate Space(used: set<nat>, freed: set<nat>, dirty: set<nat>, own: set<nat>, cown: set<nat>) {
    && used == own + SUPERS && own !! SUPERS
    && cown <= used + freed && dirty <= used + freed && dirty !! cown && dirty !! SUPERS
  }

  /** A block from freemap_next, written to. */
  lemma {:induction false} Allocated(used: set<nat>, freed: set<nat>, dirty: set<nat>, own: set<nat>, cown: set<nat>, b: nat)
    requires Space(used, freed, dirty, own, cown) && b !in used + freed
    ensures Space(used + {b}, freed, dirty + {b}, own + {b}, cown) && Space(used + {b}, freed, dirty, own + {b}, cown)
    ensures b !in own && b !in dirty && b != 0 && b != 16
  {
  }

  // -------------------------------------------------- what rewriting an inode does

  /** Blocks that are not tables, and what they are for, are as before. */
  ghost predicate PartsKept(mem: Image, own: map<nat, Owner>, mem': Image, own': map<nat, Owner>) {
    && (forall b :: b in own && own[b].PartOf? ==> b in own' && own'[b] == own[b] && Get(mem', b) == Get(mem, b))
    && (forall b :: b in own' && own'[b].PartOf? ==> b in own && own[b] == own'[b])
  }

  /** Inode inode.num is now inode and the others are as before. */
  ghost predicate InodesKept(mem: Image, sb: Super, mem': Image, sb': Super, inode: Inode) {
    && InodeAt(mem', sb', inode.num) == inode && TableOf(sb', inode.num) != 0
    && forall i :: i != inode.num && TableOf(sb, i) != 0 ==> KeptInode(mem, sb, mem', sb', i)
  }

  ghost predicate KeptInode(mem: Image, sb: Super, mem': Image, sb': Super, i: nat) {
    TableOf(sb', i) != 0 && InodeAt(mem', sb', i) == InodeAt(mem, sb, i)
  }

  ghost predicate Rewritten(mem: Image, sb: Super, own: map<nat, Owner>, mem': Image, sb': Super, own': map<nat, Owner>, inode: Inode) {
    && TablesOk(mem', sb', own') && sb'.root == sb.root && sb'.ver == sb.ver
    && PartsKept(mem, own, mem', own') && InodesKept(mem, sb, mem', sb', inode)
  }

  /** The table block t of slot k replaced by block b with inode n set. */
  lemma {:induction false} TableReplaced(mem: Image, sb: Super, own: map<nat, Owner>, inode: Inode, b: nat, inodes: seq<Inode>)
    requires TablesOk(mem, sb, own) && inode.num < VTABLE_LEN * ITABLE_NINODES && |inodes| == ITABLE_NINODES && b != 0
    requires var t := TableOf(sb, inode.num);
      0 !in own && (b !in own || b == t) && (t != 0 ==> Get(mem, t) == ITable(inodes))
    ensures var k := inode.num / ITABLE_NINODES; var t := TableOf(sb, inode.num);
      Rewritten(mem, sb, own, mem[b := ITable(inodes[inode.num % ITABLE_NINODES := inode])], sb.(vtable := sb.vtable[k := b]),
                (own - {t})[b := TableNo(k)], inode)
  {
    var k, t, at := inode.num / ITABLE_NINODES, TableOf(sb, inode.num), inode.num % ITABLE_NINODES;
    var mem', sb', own' := mem[b := ITable(inodes[at := inode])], sb.(vtable := sb.vtable[k := b]), (own - {t})[b := TableNo(k)];
    assert TableOk(mem, sb, own, k);
    forall j | 0 <= j < VTABLE_LEN ensures TableOk(mem', sb', own', j) {
      assert TableOk(mem, sb, own, j);
    }
    forall i: nat | i != inode.num && TableOf(sb, i) != 0 ensures KeptInode(mem, sb, mem', sb', i) {
      assert TableOk(mem, sb, own, i / ITABLE_NINODES);
      if i / ITABLE_NINODES == k {
        assert i % ITABLE_NINODES != at;
      }
    }
  }

  // --------------------------------------------------- well-formedness carried over

  /** What inodes other than d have is as before. */
  ghost predicate OthersKept(mem: Image, sb: Super, plan: Plan, mem': Image, sb': Super, plan': Plan, d: nat) {
    && (forall i :: i in plan.chains && i != d ==> i in plan'.chains && plan'.chains[i] == plan.chains[i] && KeptInode(mem, sb, mem', sb', i))
    && (forall i :: i in plan'.chains ==> i == d || i in plan.chains)
    && (d in plan.chains ==> d in plan'.chains)
    && (forall b :: b in plan.own && plan.own[b].PartOf? && plan.own[b].i != d ==>
          b in plan'.own && plan'.own[b] == plan.own[b] && Get(mem', b) == Get(mem, b))
  }

  lemma {:induction false} OtherNode(mem: Image, sb: Super, plan: Plan, mem': Image, sb': Super, plan': Plan, d: nat, i: nat)
    requires WellFormed(mem, sb, plan) && OthersKept(mem, sb, plan, mem', sb', plan', d) && i in plan.chains && i != d
    ensures NodeOk(mem', plan', i, InodeAt(mem', sb', i)) && TableOf(sb', i) != 0 && NodeAt(mem', sb', i) == NodeAt(mem, sb, i)
  {
    hide InodeAt, TablesOk, Pieces, TableOf;
    var inode, chain := InodeAt(mem, sb, i), plan.chains[i];
    assert KeptInode(mem, sb, mem', sb', i) && NodeOk(mem, plan, i, inode);
    forall p | 0 <= p < |chain| ensures chain[p] in plan'.own && plan'.own[chain[p]] == PartOf(i, p) && Get(mem', chain[p]) == Get(mem, chain[p]) {
      assert plan.own[chain[p]] == PartOf(i, p);
    }
    if inode.dir {
      forall e | 0 <= e < DIR_NENTS ensures EntryOk(plan'.chains, Get(mem', chain[0]).ents[e]) {
        assert EntryOk(plan.chains, Get(mem, chain[0]).ents[e]);
      }
    } else {
      forall p | 0 <= p < |chain| ensures LinkOk(mem', chain, p) {
        assert LinkOk(mem, chain, p);
      }
      ChainPieces(mem, mem', chain, 0, 0x10000);
    }
  }

  lemma {:induction false} ChainPieces(img: Image, img': Image, chain: seq<nat>, p: nat, n: nat)
    requires FileOk(img, chain) && p <= |chain| && forall q :: 0 <= q < |chain| ==> Get(img', chain[q]) == Get(img, chain[q])
    ensures var b := if p < |chain| then chain[p] else 0; Pieces(img', b, n) == Pieces(img, b, n)
    decreases n
  {
    if n > 0 && p < |chain| {
      assert LinkOk(img, chain, p);
      ChainPieces(img, img', chain, p + 1, n - 1);
    }
  }

  /** Only inode d changed, and it is well formed. */
  lemma {:induction false} WellFormedAfter(mem: Image, sb: Super, plan: Plan, mem': Image, sb': Super, plan': Plan, d: nat)
    requires WellFormed(mem, sb, plan) && OthersKept(mem, sb, plan, mem', sb', plan', d)
    requires TablesOk(mem', sb', plan'.own) && sb'.root == sb.root && d in plan'.chains && plan'.own.Keys !! SUPERS
    requires TableOf(sb', d) != 0 && NodeOk(mem', plan', d, InodeAt(mem', sb', d))
    ensures WellFormed(mem', sb', plan')
    ensures forall i :: i in plan.chains && i != d ==> NodeAt(mem', sb', i) == NodeAt(mem, sb, i)
  {
    hide InodeAt, TablesOk, TableOf, NodeOk, NodeAt;
    forall i | i in plan'.chains ensures TableOf(sb', i) != 0 && NodeOk(mem', plan', i, InodeAt(mem', sb', i)) {
      if i != d { OtherNode(mem, sb, plan, mem', sb', plan', d, i); }
    }
    forall i | i in plan.chains && i != d ensures NodeAt(mem', sb', i) == NodeAt(mem, sb, i) {
      OtherNode(mem, sb, plan, mem', sb', plan', d, i);
    }
    assert 0 !in plan'.own && 16 !in plan'.own by { assert 0 in SUPERS && 16 in SUPERS; }
  }

  // ------------------------------------------------------------- the operations

  datatype Result = Done | EIsDir | EExist | ENameTooLong | ENoSpc

  /** crfs_lookup_dirent */
  function Lookup(ents: seq<Dirent>, name: string): (r: int)
    ensures -1 <= r < |ents| && (r >= 0 ==> ents[r].name == name && ents[r].inode != 0)
    ensures r == -1 ==> forall e :: 0 <= e < |ents| ==> ents[e].name != name || ents[e].inode == 0
    ensures forall e :: 0 <= e < r ==> ents[e].name != name || ents[e].inode == 0
  {
    LookupFrom(ents, name, 0)
  }

  function LookupFrom(ents: seq<Dirent>, name: string, i: nat): (r: int)
    requires i <= |ents|
    ensures -1 <= r < |ents| && (r >= 0 ==> ents[r].name == name && ents[r].inode != 0)
    ensures r == -1 ==> forall e :: i <= e < |ents| ==> ents[e].name != name || ents[e].inode == 0
    ensures forall e :: i <= e < r ==> ents[e].name != name || ents[e].inode == 0
    decreases |ents| - i
  {
    if i == |ents| then -1
    else if ents[i].name == name && ents[i].inode != 0 then i
    else LookupFrom(ents, name, i + 1)
  }

  /** CO_FILE */
  class CoFile {
    var inode: nat
    var fpos: nat
    var curblock: nat
    var fblock: Block
    var nospc: bool

    constructor (inode: nat, curblock: nat, fblock: Block)
      ensures this.inode == inode && fpos == 0 && this.curblock == curblock && this.fblock == fblock && !nospc
    {
      this.inode, fpos, this.curblock, this.fblock, nospc := inode, 0, curblock, fblock, false;
    }
  }

  function EmptyData(): seq<int> {
    FileContents.Zeros(FileContents.FBLOCK_DATA)
  }

  function LastOf(chain: seq<nat>): nat {
    if chain == [] then 0 else chain[|chain| - 1]
  }

  /** The data of a file, piece by piece. */
  function FileData(mem: Image, chain: seq<nat>): (r: seq<seq<int>>)
    ensures |r| == |chain|
  {
    seq(|chain|, p requires 0 <= p < |chain| => match Get(mem, chain[p]) case Piece(_, _, _, data) => data case _ => [])
  }

  /** The last piece's data replaced by what has been written to it since. */
  function WithLast(data: seq<seq<int>>, last: seq<int>): seq<seq<int>> {
    if data == [] then [] else data[|data| - 1 := last]
  }

  /** The in-memory file system: the superblock being worked on, the cached
      blocks and the maps of blocks and inodes in use. */
  class FileSystem {
    const store: BlockStore
    const blocks: Freemap
    const inodes: Freemap
    var sb: Super
    var which: nat
    ghost var plan: Plan
    ghost var csb: Super
    ghost var cplan: Plan

    /** What holds at every step, the trees' shape aside. */
    ghost predicate Ready()
      reads this, store, blocks, inodes
    {
      && store.Valid() && blocks.Valid() && inodes.Valid() && blocks != inodes
      && Space(blocks.Used(), blocks.Freed(), store.Dirty(), plan.own.Keys, cplan.own.Keys)
      && Committed(store.disk, which, csb, cplan) && sb.ver == csb.ver && sb.root == csb.root
      && plan.chains.Keys + {0} <= inodes.Used()
    }

    /** What holds between operations. */
    ghost predicate Valid()
      reads this, store, blocks, inodes
    {
      && Ready() && WellFormed(store.mem, sb, plan)
      && (store.cache == [] ==> sb == csb && plan == cplan)
    }

    /** The state mounting leaves: nothing dirty, and the maps as it marked them. It is
        a good start if `which` is the number of the superblock mounted. */
    constructor (store: BlockStore, blocks: Freemap, inodes: Freemap, which: nat, sb: Super, ghost plan: Plan)
      requires store.Valid() && blocks.Valid() && inodes.Valid() && blocks != inodes && store.Dirty() == {}
      requires WellFormed(store.mem, sb, plan)
      requires plan.own.Keys + SUPERS == blocks.Used() && plan.chains.Keys + {0} <= inodes.Used()
      ensures Valid() <==> Committed(store.disk, which, sb, plan)
      ensures this.store == store && this.blocks == blocks && this.inodes == inodes
      ensures this.sb == sb && csb == sb && this.plan == plan && cplan == plan && this.which == which
    {
      hide *;
      this.store, this.blocks, this.inodes, this.which := store, blocks, inodes, which;
      this.sb, this.csb, this.plan, this.cplan := sb, sb, plan, plan;
      StartSpace(blocks.Used(), blocks.Freed(), store.mem, sb, plan);
      new;
      Started();
    }

    lemma {:induction false} Started()
      requires store.Valid() && blocks.Valid() && inodes.Valid() && blocks != inodes && store.Dirty() == {}
      requires Space(blocks.Used(), blocks.Freed(), {}, plan.own.Keys, plan.own.Keys)
      requires WellFormed(store.mem, sb, plan) && plan.chains.Keys + {0} <= inodes.Used()
      requires csb == sb && cplan == plan
      ensures Valid() <==> Committed(store.disk, which, sb, plan)
    {
      hide WellFormed, Committed, Coherent, BitsSet, DirtyIn;
    }

    lemma {:induction false} ReadyIs()
      requires Ready()
      ensures store.Valid() && blocks.Valid() && inodes.Valid() && blocks != inodes
      ensures Space(blocks.Used(), blocks.Freed(), store.Dirty(), plan.own.Keys, cplan.own.Keys)
      ensures Committed(store.disk, which, csb, cplan) && sb.ver == csb.ver && sb.root == csb.root
      ensures plan.chains.Keys + {0} <= inodes.Used()
      ensures plan.own.Keys !! SUPERS && 0 !in plan.own && 16 !in plan.own
    {
      assert 0 in SUPERS && 16 in SUPERS;
    }

    lemma {:induction false} NowReady()
      requires store.Valid() && blocks.Valid() && inodes.Valid() && blocks != inodes
      requires Space(blocks.Used(), blocks.Freed(), store.Dirty(), plan.own.Keys, cplan.own.Keys)
      requires Committed(store.disk, which, csb, cplan) && sb.ver == csb.ver && sb.root == csb.root
      requires plan.chains.Keys + {0} <= inodes.Used()
      ensures Ready()
    {
    }

    /** Writing block b harms neither the committed tree nor the superblocks. */
    ghost predicate Writable(b: nat)
      reads `cplan, blocks
    {
      b in blocks.Used() + blocks.Freed() && b !in cplan.own && b !in SUPERS
    }

    /** A block from freemap_next, for o. */
    method NewBlock(ghost o: Owner) returns (b: int)
      requires Ready()
      modifies `plan, blocks
      ensures Ready() && blocks.Room() >= old(blocks.Room()) - 1 && plan.chains == old(plan.chains)
      ensures b < 0 <==> old(blocks.Room()) == 0
      ensures b < 0 ==> plan == old(plan)
      ensures blocks.Freed() == old(blocks.Freed())
      ensures b >= 0 ==> b != 0 && b !in old(plan.own) && plan.own == old(plan.own)[b := o] && Writable(b)
    {
      hide *;
      ReadyIs();
      ghost var used, freed, own := blocks.Used(), blocks.Freed(), plan.own;
      b := blocks.Next();
      if b >= 0 {
        Allocated(used, freed, store.Dirty(), own.Keys, cplan.own.Keys, b);
        NowWritable(b, used, freed, store.Dirty(), own.Keys);
        plan := plan.(own := plan.own[b := o]);
        OwnMore(own, b, o);
      }
      NowReady();
    }

    /** "phased-commit here": a new block takes the place of t. */
    method CopyBlock(t: nat, ghost o: Owner) returns (b: int)
      requires Ready() && t in plan.own
      modifies `plan, blocks
      ensures Ready() && blocks.Room() >= old(blocks.Room()) - 1 && plan.chains == old(plan.chains)
      ensures b < 0 <==> old(blocks.Room()) == 0
      ensures b < 0 ==> plan == old(plan) && blocks.Freed() == old(blocks.Freed())
      ensures b >= 0 ==> blocks.Freed() == old(blocks.Freed()) + {t}
      ensures b >= 0 ==> b != 0 && b !in old(plan.own) && b != t && plan.own == (old(plan.own) - {t})[b := o] && Writable(b)
    {
      hide *;
      ReadyIs();
      ghost var used, freed, own := blocks.Used(), blocks.Freed(), plan.own;
      b := blocks.Next();
      if b >= 0 {
        NowWritable(b, used, freed, store.Dirty(), own.Keys);
        Moved(used, freed, store.Dirty(), own.Keys, cplan.own.Keys, t, b);
        blocks.InRange(t);
        ghost var used1 := blocks.Used();
        OwnInUse(t, used, freed, own.Keys);
        blocks.Unmark(t);
        plan := plan.(own := (plan.own - {t})[b := o]);
        OwnKeys(own, t, b, o);
        StillWritable(b, used1, freed);
      }
      NowReady();
    }

    lemma {:induction false} NowWritable(b: nat, used: set<nat>, freed: set<nat>, dirty: set<nat>, own: set<nat>)
      requires Space(used, freed, dirty, own, cplan.own.Keys) && b !in used + freed && blocks.Used() == used + {b}
      ensures Writable(b)
    {
    }

    lemma {:induction false} OwnInUse(t: nat, used: set<nat>, freed: set<nat>, own: set<nat>)
      requires Space(used, freed, store.Dirty(), own, cplan.own.Keys) && t in own
      ensures t in used
    {
    }

    lemma {:induction false} StillWritable(b: nat, used: set<nat>, freed: set<nat>)
      requires b in used && b !in cplan.own && b !in SUPERS
      requires used + freed <= blocks.Used() + blocks.Freed()
      ensures Writable(b)
    {
    }

    lemma {:induction false} DirtyWritable(b: nat)
      requires Ready() && b in store.Dirty()
      ensures Writable(b)
    {
    }

    /** crfs_write_block, of a block that may be written. */
    method WriteBlock(b: nat, data: Block)
      requires Ready() && Writable(b)
      modifies store`cache, store`mem
      ensures Ready() && store.mem == old(store.mem)[b := data] && store.Dirty() == old(store.Dirty()) + {b}
      ensures store.cache != []
    {
      hide *;
      ReadyIs();
      MoreDirty(b);
      store.Write(b, data);
      NowReady();
    }

    lemma {:induction false} MoreDirty(b: nat)
      requires Ready() && Writable(b)
      ensures Space(blocks.Used(), blocks.Freed(), store.Dirty() + {b}, plan.own.Keys, cplan.own.Keys)
    {
    }

    /** A dirty block t is written in place; another is freed when b replaces it. */
    ghost predicate Replaced(t: nat, b: nat, dirty: set<nat>, freed: set<nat>, freed': set<nat>) {
      if t == 0 then freed' == freed
      else if t in dirty then b == t && freed' == freed
      else b != t && freed' == freed + {t}
    }

    lemma {:induction false} ReplacedFrees(t: nat, b: nat, dirty: set<nat>, freed: set<nat>, freed': set<nat>)
      requires Replaced(t, b, dirty, freed, freed')
      ensures freed <= freed'
    {
    }

    lemma {:induction false} NowReplaced(t: nat, b: nat, dirty: set<nat>, freed: set<nat>, freed': set<nat>)
      requires if t == 0 then freed' == freed
        else if t in dirty then b == t && freed' == freed
        else b != t && freed' == freed + {t}
      ensures Replaced(t, b, dirty, freed, freed')
    {
    }

    /** The block to write the table of inode number num to, and what is in the
        table: the one it has if that is dirty, else a new one. */
    method TableBlock(num: nat) returns (block: int, inodes: seq<Inode>)
      requires Ready() && TablesOk(store.mem, sb, plan.own) && num < VTABLE_LEN * ITABLE_NINODES
      modifies `plan, store`cache, blocks
      ensures Ready() && blocks.Room() >= old(blocks.Room()) - 1 && plan.chains == old(plan.chains)
      ensures store.Dirty() == old(store.Dirty())
      ensures block >= 0 ==> Replaced(TableOf(sb, num), block, old(store.Dirty()), old(blocks.Freed()), blocks.Freed())
      ensures block < 0 ==> plan == old(plan) && old(blocks.Room()) == 0
      ensures var t := TableOf(sb, num); block >= 0 ==>
        && Writable(block) && block != 0 && (block !in old(plan.own) || block == t) && |inodes| == ITABLE_NINODES
        && (t != 0 ==> Get(store.mem, t) == ITable(inodes))
        && plan.own == (old(plan.own) - {t})[block := TableNo(num / ITABLE_NINODES)]
    {
      hide *;
      ReadyIs();
      ghost var own0, freed0, k := plan.own, blocks.Freed(), num / ITABLE_NINODES;
      var t := TableOf(sb, num);
      TableFacts(store.mem, sb, own0, num);
      if t == 0 {
        inodes := seq(ITABLE_NINODES, _ => NO_INODE);
        block := NewBlock(TableNo(k));
        if block >= 0 { OwnWithout(own0, t, block, TableNo(k)); }
      } else {
        var it := store.Read(t);
        NowReady();
        inodes := it.inodes;
        var dirty := store.IsDirty(t);
        if dirty {
          block := t;
          DirtyWritable(t);
          OwnSame(own0, t, TableNo(k));
        } else {
          block := CopyBlock(t, TableNo(k));
        }
      }
      if block >= 0 { NowReplaced(t, block, store.Dirty(), freed0, blocks.Freed()); }
    }

    /** crfs_write_inode: a table that belongs to the committed tree is not written
        but copied to a new block. -ENOSPC leaves everything as it was. */
    method WriteInode(inode: Inode) returns (ok: bool)
      requires Ready() && TablesOk(store.mem, sb, plan.own) && inode.num < VTABLE_LEN * ITABLE_NINODES
      modifies `sb, `plan, store`cache, store`mem, blocks
      ensures Ready() && blocks.Room() >= old(blocks.Room()) - 1 && plan.chains == old(plan.chains)
      ensures !ok ==> store.mem == old(store.mem) && sb == old(sb) && plan == old(plan)
      ensures !ok ==> old(blocks.Room()) == 0
      ensures ok ==> Rewritten(old(store.mem), old(sb), old(plan.own), store.mem, sb, plan.own, inode)
      ensures ok ==> store.cache != []
      ensures ok ==>
        Replaced(TableOf(old(sb), inode.num), TableOf(sb, inode.num), old(store.Dirty()), old(blocks.Freed()), blocks.Freed())
    {
      hide *;
      ReadyIs();
      ghost var m, s0, own0 := store.mem, sb, plan.own;
      TableFacts(m, s0, own0, inode.num);
      var block, inodes := TableBlock(inode.num);
      ok := block >= 0;
      if ok {
        TableReplaced(m, s0, own0, inode, block, inodes);
        ReadyIs();
        sb := sb.(vtable := sb.vtable[inode.num / ITABLE_NINODES := block]);
        NowTable(s0, sb, inode.num, block);
        NowReady();
        WriteBlock(block, ITable(inodes[inode.num % ITABLE_NINODES := inode]));
      }
    }

    /** The phased commit of a directory's block: entry e of directory dirnode now
        names inode inum. The other inodes keep their contents. */
    method LinkEntry(dirnode: Inode, ents: seq<Dirent>, e: nat, inum: nat, name: string)
      requires Valid() && blocks.Room() >= 2 && dirnode.num in plan.chains && inum in plan.chains && dirnode.dir
      requires dirnode == InodeAt(store.mem, sb, dirnode.num) && ents == Entries(store.mem, dirnode.first) && e < |ents|
      modifies `sb, `plan, store`cache, store`mem, blocks
      ensures Valid() && plan.chains.Keys == old(plan.chains).Keys
      ensures Linked(old(store.mem), old(sb), old(plan), store.mem, sb, dirnode.num, ents[e := Dirent(inum, name)])
      ensures dirnode.first in old(store.Dirty()) ==> blocks.Freed() == old(blocks.Freed()) && sb == old(sb) && plan == old(plan)
      ensures dirnode.first !in old(store.Dirty()) ==> dirnode.first in blocks.Freed()
    {
      hide *;
      ValidIs();
      ReadyIs();
      ghost var m, s0, plan0, d := store.mem, sb, plan, dirnode.num;
      var dirblock := dirnode.first;
      DirFacts(m, s0, plan0, d);
      var dirty := store.IsDirty(dirblock);
      var ents' := ents[e := Dirent(inum, name)];
      if dirty {
        DirtyWritable(dirblock);
        WriteBlock(dirblock, Directory(ents'));
        RelinkedInPlace(m, s0, plan0, d, inum, e, name);
      } else {
        var dirblock2 := CopyBlock(dirblock, PartOf(d, 0));
        NotCommitted(dirblock2);
        ghost var own1 := plan.own;
        TablesMoved(m, s0, plan0, d, dirblock2);
        var dirnode' := dirnode.(first := dirblock2, last := dirblock2);
        ghost var dirty1, freed1 := store.Dirty(), blocks.Freed();
        var ok := WriteInode(dirnode');
        ReplacedFrees(TableOf(s0, d), TableOf(sb, d), dirty1, freed1, blocks.Freed());
        ReadyIs();
        RewrittenParts(m, s0, own1, store.mem, sb, plan.own, dirnode');
        plan := plan.(chains := plan.chains[d := [dirblock2]]);
        ChainKeys(plan0.chains, d, [dirblock2]);
        NowReady();
        RelinkedByCopy(m, s0, plan0, own1, store.mem, sb, plan.own, dirnode', dirblock2, inum, e, name);
        PartStays(m, own1, store.mem, plan.own, dirblock2);
        OwnedWritable(dirblock2);
        WriteBlock(dirblock2, Directory(ents'));
      }
      NowValid();
    }

    /** An inode number that fits the inode tables can still be given out. */
    ghost predicate InodeRoom()
      reads this, inodes
    {
      exists b: nat :: b < VTABLE_LEN * ITABLE_NINODES && b < 8 * |inodes.inUse| && b !in inodes.Used() + inodes.Freed()
    }

    /** freemap_next of the inode map. */
    method NewInode() returns (inum: nat)
      requires Valid() && InodeRoom()
      modifies inodes
      ensures Valid() && 0 < inum < VTABLE_LEN * ITABLE_NINODES && inum !in plan.chains
      ensures inodes.Used() == old(inodes.Used()) + {inum} && inum !in old(inodes.Used()) + old(inodes.Freed())
      ensures forall b: nat :: b < inum ==> b in old(inodes.Used()) + old(inodes.Freed())
    {
      hide *;
      ValidIs();
      ReadyIs();
      ghost var free := SomeInode();
      ghost var used, freed := inodes.Used(), inodes.Freed();
      TwoMaps();
      var r := inodes.Next();
      NextInode(r, free, used, freed);
      inum := r;
      NowReady();
      NowValid();
    }

    lemma {:induction false} TwoMaps()
      requires Ready()
      ensures blocks != inodes
    {
    }

    lemma {:induction false} SomeInode() returns (b: nat)
      requires InodeRoom() && inodes.Valid()
      ensures b < VTABLE_LEN * ITABLE_NINODES && b !in inodes.Used() + inodes.Freed() && b < 8 * |inodes.inUse| && !inodes.Full()
      ensures inodes.Room() != 0
    {
      b :| b < VTABLE_LEN * ITABLE_NINODES && b < 8 * |inodes.inUse| && b !in inodes.Used() + inodes.Freed();
      NotTaken(inodes.inUse, inodes.freed, b);
      assert b in FreeIn(inodes.inUse, inodes.freed);
    }

    lemma {:induction false} NextInode(r: int, free: nat, used: set<nat>, freed: set<nat>)
      requires r != -1 ==> 0 <= r && r !in used + freed && forall b: nat :: b < r ==> b in used + freed
      requires free !in used + freed && r != -1 && plan.chains.Keys + {0} <= used
      ensures 0 < r <= free && r !in plan.chains
    {
      assert 0 in plan.chains.Keys + {0};
    }

    /** The first entry not in use. */
    method FirstFree(ents: seq<Dirent>) returns (e: nat)
      ensures e <= |ents| && (e < |ents| ==> ents[e].inode == 0) && forall x :: 0 <= x < e ==> ents[x].inode != 0
    {
      e := 0;
      while e < |ents| && ents[e].inode != 0
        invariant e <= |ents| && forall x :: 0 <= x < e ==> ents[x].inode != 0
      {
        e := e + 1;
      }
    }

    /** What crfs_create and crfs_mkdir check before they change anything. */
    method Check(dirnode: Inode, name: string, create: bool) returns (r: Result, ents: seq<Dirent>, e: nat)
      requires Valid() && dirnode.num in plan.chains && dirnode.dir && dirnode == InodeAt(store.mem, sb, dirnode.num)
      modifies store`cache
      ensures Valid() && r == Allowed(store.mem, sb, dirnode, name, create)
      ensures ents == Entries(store.mem, dirnode.first)
      ensures r == Done ==> e < |ents| && ents[e].inode == 0 && forall x :: 0 <= x < e ==> ents[x].inode != 0
    {
      hide *;
      ValidIs();
      ReadyIs();
      DirFacts(store.mem, sb, plan, dirnode.num);
      var d := store.Read(dirnode.first);
      NowReady();
      ents := d.ents;
      var at := Lookup(ents, name);
      LookupRange(ents, name);
      var isdir := name == "";
      if at >= 0 {
        EntryFacts(store.mem, sb, plan, dirnode.num, at);
        var it := store.Read(TableOf(sb, ents[at].inode));
        NowReady();
        isdir := isdir || it.inodes[ents[at].inode % ITABLE_NINODES].dir;
      }
      e := FirstFree(ents);
      AllowedIs(store.mem, sb, dirnode, name, create, ents, at, e);
      NowValid();
      r := if |name| > FILENAME_MAX then ENameTooLong
           else if create && isdir then EIsDir
           else if at >= 0 then EExist
           else if e == |ents| then ENoSpc else Done;
    }

    /** crfs_create, in the directory that the path leads to. A new empty file gets
        the first free entry; nothing else changes. */
    method Create(dirnode: Inode, name: string) returns (r: Result, ghost inum: nat)
      requires Valid() && dirnode.num in plan.chains && dirnode.dir && dirnode == InodeAt(store.mem, sb, dirnode.num)
      requires blocks.Room() >= 3 && InodeRoom()
      modifies `sb, `plan, store`cache, store`mem, blocks, inodes
      ensures Valid() && r == Allowed(old(store.mem), old(sb), dirnode, name, true)
      ensures r != Done ==> sb == old(sb) && plan == old(plan) && store.mem == old(store.mem)
      ensures r == Done ==> inum !in old(plan.chains) && plan.chains.Keys == old(plan.chains).Keys + {inum}
      ensures r == Done ==> LeastFree(old(inodes.Used()) + old(inodes.Freed()), inum) && inodes.Used() == old(inodes.Used()) + {inum}
      ensures r == Done ==> NodeAt(store.mem, sb, inum) == FileNode(0, [])
      ensures r == Done ==> LinkedFirst(old(store.mem), old(sb), old(plan), store.mem, sb, dirnode, Dirent(inum, name))
    {
      hide *;
      ghost var m, s0, plan0, used := store.mem, sb, plan, inodes.Used() + inodes.Freed();
      inum := 0;
      var ents, e;
      r, ents, e := Check(dirnode, name, true);
      if r == Done {
        var i := NewInode();
        inum := i;
        NowLeast(used, i);
        ValidIs();
        var inode := Inode(i, 0, 0, 0, false);
        ghost var own1 := plan.own;
        var ok := WriteInode(inode);
        ReadyIs();
        plan := plan.(chains := plan.chains[i := []]);
        FileEnrolled(m, s0, plan0, store.mem, sb, plan, inode);
        NowReady();
        NowValid();
        ghost var m1, s1, plan1 := store.mem, sb, plan;
        DirSame(m, s0, m1, s1, dirnode);
        LinkEntry(dirnode, ents, e, i, name);
        LinkedAfter(m, s0, plan0, m1, s1, plan1, store.mem, sb, dirnode, ents, e, i, name, FileNode(0, []));
      }
    }

    /** "make a new inode" and "a new crfs_directory" for it. */
    method MakeDirectory(dirnode: Inode) returns (i: nat)
      requires Valid() && dirnode.num in plan.chains && dirnode.dir && dirnode == InodeAt(store.mem, sb, dirnode.num)
      requires blocks.Room() >= 4 && InodeRoom()
      modifies `sb, `plan, store`cache, store`mem, blocks, inodes
      ensures Valid() && blocks.Room() >= 2 && sb.root == old(sb).root
      ensures i !in old(plan.chains) && plan.chains.Keys == old(plan.chains).Keys + {i}
      ensures LeastFree(old(inodes.Used()) + old(inodes.Freed()), i) && inodes.Used() == old(inodes.Used()) + {i}
      ensures NodeAt(store.mem, sb, i).DirNode? && LinksOnly(NodeAt(store.mem, sb, i).ents, i, dirnode.num)
      ensures forall k :: k in old(plan.chains) ==> NodeAt(store.mem, sb, k) == NodeAt(old(store.mem), old(sb), k)
      ensures InodeAt(store.mem, sb, dirnode.num) == dirnode
    {
      hide *;
      ghost var m, s0, plan0, used := store.mem, sb, plan, inodes.Used() + inodes.Freed();
      ValidIs();
      DirFacts(m, s0, plan0, dirnode.num);
      i := NewInode();
      NowLeast(used, i);
      ValidIs();
      var blocknum := NewBlock(PartOf(i, 0));
      var inode := Inode(i, blocknum, blocknum, 0, true);
      WriteBlock(blocknum, Directory(NewDir(i, dirnode.num)));
      ghost var m1, own1 := store.mem, plan.own;
      NewBlockTables(m, s0, plan0, blocknum, Directory(NewDir(i, dirnode.num)), i);
      var ok := WriteInode(inode);
      ReadyIs();
      plan := plan.(chains := plan.chains[i := [blocknum]]);
      DirEnrolled(m, s0, plan0, m1, own1, store.mem, sb, plan, inode, dirnode.num);
      NewDirLinks(i, dirnode.num);
      NowReady();
      NowValid();
    }

    /** crfs_mkdir, in the directory that the path leads to. The new directory links to
        itself and to that one, and to nothing else. */
    method Mkdir(dirnode: Inode, name: string) returns (r: Result, ghost inum: nat)
      requires Valid() && dirnode.num in plan.chains && dirnode.dir && dirnode == InodeAt(store.mem, sb, dirnode.num)
      requires blocks.Room() >= 4 && InodeRoom()
      modifies `sb, `plan, store`cache, store`mem, blocks, inodes
      ensures Valid() && r == Allowed(old(store.mem), old(sb), dirnode, name, false)
      ensures r != Done ==> sb == old(sb) && plan == old(plan) && store.mem == old(store.mem)
      ensures r == Done ==> inum !in old(plan.chains) && plan.chains.Keys == old(plan.chains).Keys + {inum}
      ensures r == Done ==> LeastFree(old(inodes.Used()) + old(inodes.Freed()), inum) && inodes.Used() == old(inodes.Used()) + {inum}
      ensures r == Done ==> NodeAt(store.mem, sb, inum).DirNode? && LinksOnly(NodeAt(store.mem, sb, inum).ents, inum, dirnode.num)
      ensures r == Done ==> LinkedFirst(old(store.mem), old(sb), old(plan), store.mem, sb, dirnode, Dirent(inum, name))
    {
      hide *;
      ghost var m, s0, plan0 := store.mem, sb, plan;
      inum := 0;
      var ents, e;
      r, ents, e := Check(dirnode, name, false);
      if r == Done {
        ValidIs();
        var i := MakeDirectory(dirnode);
        inum := i;
        ValidIs();
        ghost var m2, s2, plan2 := store.mem, sb, plan;
        DirSame(m, s0, m2, s2, dirnode);
        LinkEntry(dirnode, ents, e, i, name);
        LinkedAfter(m, s0, plan0, m2, s2, plan2, store.mem, sb, dirnode, ents, e, i, name, NodeAt(m2, s2, i));
      }
    }

    /** append_fblock: a further, empty piece at the end of a file. The piece that
        was last is written in place, so it must not belong to the committed tree:
        a file made since the last flush. */
    method Append(fp: CoFile)
      requires Valid() && fp.inode in plan.chains && !InodeAt(store.mem, sb, fp.inode).dir && fp.fblock.Piece?
      requires fp.curblock == LastOf(plan.chains[fp.inode]) && |plan.chains[fp.inode]| < 0x10000
      requires fp.curblock != 0 ==> fp.curblock !in cplan.own
      requires blocks.Room() >= 2
      modifies fp, `sb, `plan, store`cache, store`mem, blocks
      ensures Valid() && fp.inode == old(fp.inode) && fp.fpos == old(fp.fpos) && fp.curblock != 0 && fp.curblock !in cplan.own
      ensures blocks.Room() >= old(blocks.Room()) - 2 && !InodeAt(store.mem, sb, fp.inode).dir && !fp.nospc
      ensures InodeAt(store.mem, sb, fp.inode).size == InodeAt(old(store.mem), old(sb), fp.inode).size
      ensures plan.chains == old(plan.chains)[fp.inode := old(plan.chains)[fp.inode] + [fp.curblock]]
      ensures old(fp.fblock).Piece?
      ensures fp.fblock == Piece(old(fp.curblock), 0, if old(fp.curblock) != 0 then old(fp.fblock).offset + 1 else 0, EmptyData())
      ensures FileData(store.mem, plan.chains[fp.inode])
           == WithLast(FileData(old(store.mem), old(plan.chains)[fp.inode]), old(fp.fblock).data) + [EmptyData()]
      ensures forall i :: i in plan.chains && i != fp.inode ==> NodeAt(store.mem, sb, i) == NodeAt(old(store.mem), old(sb), i)
    {
      hide *;
      ValidIs();
      ReadyIs();
      ghost var m, s0, plan0, i, chain := store.mem, sb, plan, fp.inode, plan.chains[fp.inode];
      FileFacts(m, s0, plan0, i);
      var b := NewBlock(PartOf(i, |chain|));
      fp.nospc := false;
      ReadyIs();
      var it := store.Read(TableOf(sb, fp.inode));
      NowReady();
      var inode := it.inodes[fp.inode % ITABLE_NINODES];
      var cur := fp.curblock;
      ghost var piece := fp.fblock;
      NotCommitted(b);
      ChainEnds(chain);
      if cur != 0 {
        StillOwned(plan0.own, plan.own, b, cur);
        OwnedWritable(cur);
      } else {
        inode := inode.(first := b);
      }
      LinkPiece(fp, b, chain);
      ghost var m2, own2 := store.mem, plan.own;
      inode := inode.(last := b);
      AppendTables(m, s0, plan0, i, b, piece, fp.fblock, m2, own2);
      var ok := WriteInode(inode);
      ReadyIs();
      plan := plan.(chains := plan.chains[i := chain + [b]]);
      ChainKeys(plan0.chains, i, chain + [b]);
      NowReady();
      Appended(m, s0, plan0, i, b, piece, fp.fblock, m2, own2, store.mem, sb, plan, inode);
      RewrittenInode(m2, s0, own2, store.mem, sb, plan.own, inode);
      NowValid();
    }

    /** The piece that was last now leads to b, which is empty. */
    method LinkPiece(fp: CoFile, b: nat, ghost chain: seq<nat>)
      requires Ready() && Writable(b) && (fp.curblock != 0 ==> Writable(fp.curblock)) && fp.fblock.Piece?
      requires fp.curblock == LastOf(chain) && (chain == [] <==> fp.curblock == 0)
      modifies fp, store`cache, store`mem
      ensures Ready() && store.cache != [] && fp.curblock == b
      ensures fp.inode == old(fp.inode) && fp.fpos == old(fp.fpos) && fp.nospc == old(fp.nospc)
      ensures fp.fblock == Piece(old(fp.curblock), 0, if old(fp.curblock) != 0 then old(fp.fblock).offset + 1 else 0, EmptyData())
      ensures AppendWrites(old(store.mem), chain, b, old(fp.fblock), fp.fblock, store.mem)
    {
      hide *;
      ghost var m := store.mem;
      var cur, piece := fp.curblock, fp.fblock;
      if cur != 0 {
        WriteBlock(cur, piece.(next := b));
        fp.fblock := piece.(offset := piece.offset + 1);
      } else {
        fp.fblock := piece.(offset := 0);
      }
      fp.fblock := Piece(cur, 0, fp.fblock.offset, EmptyData());
      fp.curblock := b;
      WriteBlock(b, fp.fblock);
      NowAppended(m, chain, b, piece, fp.fblock, store.mem);
    }

    /** cache_flush. Unless the cache is empty: the dirty blocks, then the other
        superblock, with the next version. The tree in memory becomes the committed
        one; only then may freed blocks be given out again. */
    method Flush() returns (ghost writes: seq<Write>)
      requires Valid()
      modifies this, store, blocks
      ensures Valid() && plan == old(plan) && cplan == plan && csb == sb && blocks.Freed() == {}
      ensures store.disk == Applied(old(store.disk), writes)
      ensures old(store.cache) == [] ==> writes == [] && sb == old(sb)
      ensures old(store.cache) != [] ==> Phased(writes, old(which), old(cplan)) && which == 1 - old(which)
      ensures old(store.cache) != [] ==> writes[|writes| - 1].data == SuperBlock(sb, true) && sb == old(sb).(ver := old(sb).ver + 1)
      ensures SameTree(old(store.mem), old(sb), store.disk, sb) && Chosen(store.disk, sb)
    {
      hide *;
      ValidIs();
      ReadyIs();
      ghost var m, s0, disk0 := store.mem, sb, store.disk;
      writes := [];
      if store.cache != [] {
        ghost var w0, dirty := which, store.Dirty();
        writes := store.WriteBack();
        ghost var disk1, first := store.disk, writes;
        which := (which + 1) % 2;
        sb := sb.(ver := sb.ver + 1);
        store.WriteThrough(SuperNo(which), SuperBlock(sb, true));
        AppliedOne(disk0, first, Stored(SuperNo(which), SuperBlock(sb, true)));
        writes := first + [Stored(SuperNo(which), SuperBlock(sb, true))];
        NowPhased(first, w0, cplan, dirty, sb, blocks.Used(), blocks.Freed(), plan.own.Keys);
        SuperUntouched(disk0, first, dirty, w0);
        Committing(m, s0, disk1, w0, sb, plan, csb);
        csb, cplan := sb, plan;
      } else {
        store.NoneDirty();
        store.CoherentIs();
        NothingCached(store.cache, store.disk, store.mem);
        Reread(m, store.disk, sb, plan);
        AppliedNone(disk0);
      }
      CommittedChosen(store.disk, which, csb, cplan);
      blocks.Flush();
      blocks.Flush();
      SpaceFlushed(blocks.Used(), old(blocks.Freed()), store.Dirty(), plan.own.Keys);
      NowReady();
      NowValid();
    }

    lemma {:induction false} NotCommitted(b: nat)
      requires Writable(b)
      ensures b !in cplan.own
    {
    }

    /** Blocks of the current tree that the committed one does not have. */
    lemma {:induction false} OwnedWritable(b: nat)
      requires Ready() && b in plan.own && b !in cplan.own
      ensures Writable(b)
    {
    }

    lemma {:induction false} ValidIs()
      requires Valid()
      ensures Ready() && WellFormed(store.mem, sb, plan) && TablesOk(store.mem, sb, plan.own)
      ensures store.cache == [] ==> sb == csb && plan == cplan
    {
    }

    lemma {:induction false} NowValid()
      requires Ready() && WellFormed(store.mem, sb, plan) && (store.cache == [] ==> sb == csb && plan == cplan)
      ensures Valid()
    {
    }
  }

  /** Directory d now has entries ents, and other inodes are as before. */
  ghost predicate Linked(mem: Image, sb: Super, plan: Plan, mem': Image, sb': Super, d: nat, ents: seq<Dirent>) {
    && sb'.root == sb.root && NodeAt(mem', sb', d) == DirNode(ents)
    && forall i :: i in plan.chains && i != d ==> NodeAt(mem', sb', i) == NodeAt(mem, sb, i)
  }

  lemma {:induction false} FileFacts(mem: Image, sb: Super, plan: Plan, i: nat)
    requires WellFormed(mem, sb, plan) && i in plan.chains && !InodeAt(mem, sb, i).dir
    ensures var chain := plan.chains[i];
      && 0 < i < VTABLE_LEN * ITABLE_NINODES && InodeAt(mem, sb, i).num == i && FileOk(mem, chain) && Owned(plan.own, i, chain)
      && EndsOk(InodeAt(mem, sb, i), chain) && TableOf(sb, i) != 0
    ensures var it := Get(mem, TableOf(sb, i));
      it.ITable? && i % ITABLE_NINODES < |it.inodes| && it.inodes[i % ITABLE_NINODES] == InodeAt(mem, sb, i)
    ensures TableOf(sb, i) in plan.own && plan.own[TableOf(sb, i)].TableNo?
    ensures LastOf(plan.chains[i]) != 0 ==> LastOf(plan.chains[i]) in plan.own
    ensures plan.chains[i] != [] ==> LastOf(plan.chains[i]) != 0
  {
    hide InodeAt, TablesOk;
    assert NodeOk(mem, plan, i, InodeAt(mem, sb, i));
    TableFacts(mem, sb, plan.own, i);
    TableEntry(mem, sb, i);
  }

  lemma {:induction false} StillOwned(own: map<nat, Owner>, own': map<nat, Owner>, b: nat, x: nat)
    requires x in own && own'.Keys == own.Keys + {b}
    ensures x in own'
  {
  }

  /** The blocks written by an append, before the inode. */
  ghost predicate AppendWrites(mem: Image, chain: seq<nat>, b: nat, piece: Block, blank: Block, mem2: Image) {
    && piece.Piece?
    && mem2 == (if chain == [] then mem else mem[LastOf(chain) := piece.(next := b)])[b := blank]
  }

  lemma {:induction false} NowAppended(mem: Image, chain: seq<nat>, b: nat, piece: Block, blank: Block, mem2: Image)
    requires piece.Piece? && mem2 == (if chain == [] then mem else mem[LastOf(chain) := piece.(next := b)])[b := blank]
    ensures AppendWrites(mem, chain, b, piece, blank, mem2)
  {
  }

  lemma {:induction false} ChainEnds(chain: seq<nat>)
    ensures chain == [] ==> LastOf(chain) == 0
  {
  }

  lemma {:induction false} AppendTables(mem: Image, sb: Super, plan: Plan, i: nat, b: nat, piece: Block, blank: Block, mem2: Image, own2: map<nat, Owner>)
    requires WellFormed(mem, sb, plan) && i in plan.chains && Owned(plan.own, i, plan.chains[i])
    requires AppendWrites(mem, plan.chains[i], b, piece, blank, mem2) && own2 == plan.own[b := PartOf(i, |plan.chains[i]|)]
    requires b !in plan.own && b != 0
    ensures TablesOk(mem2, sb, own2)
  {
    hide InodeAt;
    forall k | 0 <= k < VTABLE_LEN ensures TableOk(mem2, sb, own2, k) {
      assert TableOk(mem, sb, plan.own, k);
    }
  }

  /** The chain grown by one piece. */
  lemma {:induction false} GrownChain(mem: Image, chain: seq<nat>, b: nat, piece: Block, blank: Block, mem': Image)
    requires FileOk(mem, chain) && |chain| < 0x10000 && b !in chain && piece.Piece? && blank.Piece? && blank.next == 0
    requires forall p, q :: 0 <= p < q < |chain| ==> chain[p] != chain[q]
    requires forall p :: 0 <= p < |chain| - 1 ==> Get(mem', chain[p]) == Get(mem, chain[p])
    requires (chain != [] ==> Get(mem', LastOf(chain)) == piece.(next := b)) && Get(mem', b) == blank
    ensures FileOk(mem', chain + [b]) && FileData(mem', chain + [b]) == WithLast(FileData(mem, chain), piece.data) + [blank.data]
  {
    var chain' := chain + [b];
    forall p | 0 <= p < |chain'| ensures LinkOk(mem', chain', p) {
      if p < |chain| - 1 { assert LinkOk(mem, chain, p); }
    }
    forall p | 0 <= p < |chain| - 1 ensures FileData(mem', chain')[p] == FileData(mem, chain)[p] {
      assert chain'[p] == chain[p];
    }
  }

  lemma {:induction false} Appended(mem: Image, sb: Super, plan: Plan, i: nat, b: nat, piece: Block, blank: Block, mem2: Image,
                                    own2: map<nat, Owner>, mem3: Image, sb3: Super, plan3: Plan, inode: Inode)
    requires WellFormed(mem, sb, plan) && i in plan.chains && !InodeAt(mem, sb, i).dir && |plan.chains[i]| < 0x10000
    requires AppendWrites(mem, plan.chains[i], b, piece, blank, mem2) && own2 == plan.own[b := PartOf(i, |plan.chains[i]|)]
    requires b !in plan.own && b != 0 && blank.Piece? && blank.next == 0
    requires inode == InodeAt(mem, sb, i).(first := if plan.chains[i] == [] then b else InodeAt(mem, sb, i).first, last := b)
    requires Rewritten(mem2, sb, own2, mem3, sb3, plan3.own, inode) && plan3.own.Keys !! SUPERS
    requires plan3.chains == plan.chains[i := plan.chains[i] + [b]]
    ensures WellFormed(mem3, sb3, plan3)
    ensures FileData(mem3, plan3.chains[i]) == WithLast(FileData(mem, plan.chains[i]), piece.data) + [blank.data]
    ensures forall j :: j in plan.chains && j != i ==> NodeAt(mem3, sb3, j) == NodeAt(mem, sb, j)
  {
    FileFacts(mem, sb, plan, i);
    hide InodeAt, TablesOk, TableOf, NodeAt, FileOk;
    var chain := plan.chains[i];
    forall p | 0 <= p < |chain| ensures Get(mem3, chain[p]) == Get(mem2, chain[p]) && chain[p] != b {
      assert own2[chain[p]] == PartOf(i, p);
    }
    assert own2[b] == PartOf(i, |chain|);
    GrownChain(mem, chain, b, piece, blank, mem3);
    OwnedMore(plan.own, own2, plan3.own, mem2, mem3, i, chain, b);
    AppendOthers(mem, sb, plan, i, b, piece, blank, mem2, own2, mem3, sb3, plan3, inode);
    WellFormedAfter(mem, sb, plan, mem3, sb3, plan3, i);
  }

  lemma {:induction false} OwnedMore(own: map<nat, Owner>, own2: map<nat, Owner>, own3: map<nat, Owner>, mem2: Image, mem3: Image,
                                     i: nat, chain: seq<nat>, b: nat)
    requires Owned(own, i, chain) && own2 == own[b := PartOf(i, |chain|)] && b !in own && PartsKept(mem2, own2, mem3, own3)
    ensures Owned(own3, i, chain + [b])
  {
    forall p | 0 <= p <= |chain| ensures (chain + [b])[p] in own3 && own3[(chain + [b])[p]] == PartOf(i, p) {
      assert own2[(chain + [b])[p]] == PartOf(i, p);
    }
  }

  lemma {:induction false} AppendOthers(mem: Image, sb: Super, plan: Plan, i: nat, b: nat, piece: Block, blank: Block, mem2: Image,
                                        own2: map<nat, Owner>, mem3: Image, sb3: Super, plan3: Plan, inode: Inode)
    requires WellFormed(mem, sb, plan) && i in plan.chains && Owned(plan.own, i, plan.chains[i]) && inode.num == i
    requires AppendWrites(mem, plan.chains[i], b, piece, blank, mem2) && own2 == plan.own[b := PartOf(i, |plan.chains[i]|)]
    requires b !in plan.own && b != 0 && Rewritten(mem2, sb, own2, mem3, sb3, plan3.own, inode)
    requires plan3.chains == plan.chains[i := plan.chains[i] + [b]]
    ensures OthersKept(mem, sb, plan, mem3, sb3, plan3, i)
  {
    hide InodeAt, TablesOk, NodeAt, NodeOk, KeptInode, WellFormed, Rewritten, AppendWrites, Owned;
    forall j | j in plan.chains && j != i ensures KeptInode(mem, sb, mem3, sb3, j) {
      AppendInode(mem, sb, plan, i, b, piece, blank, mem2, own2, mem3, sb3, plan3.own, inode, j);
    }
    forall x | x in plan.own && plan.own[x].PartOf? && plan.own[x].i != i
      ensures x in plan3.own && plan3.own[x] == plan.own[x] && Get(mem3, x) == Get(mem, x)
    {
      AppendBlock(mem, sb, plan, i, b, piece, blank, mem2, own2, mem3, sb3, plan3.own, inode, x);
    }
  }

  /** Another inode, after an append. */
  lemma {:induction false} AppendInode(mem: Image, sb: Super, plan: Plan, i: nat, b: nat, piece: Block, blank: Block, mem2: Image,
                                       own2: map<nat, Owner>, mem3: Image, sb3: Super, own3: map<nat, Owner>, inode: Inode, j: nat)
    requires WellFormed(mem, sb, plan) && i in plan.chains && Owned(plan.own, i, plan.chains[i]) && inode.num == i
    requires AppendWrites(mem, plan.chains[i], b, piece, blank, mem2) && b !in plan.own && b != 0
    requires Rewritten(mem2, sb, own2, mem3, sb3, own3, inode) && j in plan.chains && j != i
    ensures KeptInode(mem, sb, mem3, sb3, j)
  {
    hide InodeAt, TablesOk, NodeAt, NodeOk;
    AppendInodes(mem, sb, plan, i, b, piece, blank, mem2);
    assert TableOf(sb, j) != 0;
    assert KeptInode(mem, sb, mem2, sb, j);
    assert KeptInode(mem2, sb, mem3, sb3, j);
  }

  /** A block of another inode, after an append. */
  lemma {:induction false} AppendBlock(mem: Image, sb: Super, plan: Plan, i: nat, b: nat, piece: Block, blank: Block, mem2: Image,
                                       own2: map<nat, Owner>, mem3: Image, sb3: Super, own3: map<nat, Owner>, inode: Inode, x: nat)
    requires WellFormed(mem, sb, plan) && i in plan.chains && Owned(plan.own, i, plan.chains[i]) && inode.num == i
    requires AppendWrites(mem, plan.chains[i], b, piece, blank, mem2) && own2 == plan.own[b := PartOf(i, |plan.chains[i]|)]
    requires b !in plan.own && b != 0 && Rewritten(mem2, sb, own2, mem3, sb3, own3, inode)
    requires x in plan.own && plan.own[x].PartOf? && plan.own[x].i != i
    ensures x in own3 && own3[x] == plan.own[x] && Get(mem3, x) == Get(mem, x)
  {
    hide InodeAt, TablesOk, NodeAt, NodeOk, KeptInode, WellFormed;
    var chain := plan.chains[i];
    if chain != [] { assert plan.own[chain[|chain| - 1]] == PartOf(i, |chain| - 1); }
    assert own2[x] == plan.own[x];
  }

  lemma {:induction false} AppendInodes(mem: Image, sb: Super, plan: Plan, i: nat, b: nat, piece: Block, blank: Block, mem2: Image)
    requires WellFormed(mem, sb, plan) && i in plan.chains && Owned(plan.own, i, plan.chains[i]) && b !in plan.own && b != 0
    requires AppendWrites(mem, plan.chains[i], b, piece, blank, mem2)
    ensures forall j: nat :: TableOf(sb, j) != 0 ==> KeptInode(mem, sb, mem2, sb, j)
  {
    forall j: nat | TableOf(sb, j) != 0 ensures KeptInode(mem, sb, mem2, sb, j) {
      assert TableOk(mem, sb, plan.own, j / ITABLE_NINODES);
    }
  }

  // ----------------------------------------------------------- phased commits

  /** What one flush writes: blocks that the committed tree does not have, and
      last the superblock that is not the committed one. */
  ghost predicate Phased(writes: seq<Write>, which: nat, cplan: Plan) {
    && which < 2 && |writes| > 0 && writes[|writes| - 1].addr == SuperNo(1 - which)
    && forall i :: 0 <= i < |writes| - 1 ==> writes[i].addr !in cplan.own && writes[i].addr !in SUPERS
  }

  lemma {:induction false} NowPhased(first: seq<Write>, which: nat, cplan: Plan, dirty: set<nat>, sb: Super, used: set<nat>,
                                     freed: set<nat>, own: set<nat>)
    requires which < 2 && Space(used, freed, dirty, own, cplan.own.Keys)
    requires forall i :: 0 <= i < |first| ==> first[i].addr in dirty
    ensures SuperNo((which + 1) % 2) == SuperNo(1 - which)
    ensures Phased(first + [Stored(SuperNo((which + 1) % 2), SuperBlock(sb, true))], which, cplan)
    ensures (which + 1) % 2 == 1 - which
  {
    forall i | 0 <= i < |first| ensures first[i].addr !in cplan.own && first[i].addr !in SUPERS {
      assert first[i].addr in dirty;
    }
  }

  /** The committed superblock is not among the blocks written. */
  lemma {:induction false} SuperUntouched(disk: Image, first: seq<Write>, dirty: set<nat>, which: nat)
    requires which < 2 && dirty !! SUPERS && forall i :: 0 <= i < |first| ==> first[i].addr in dirty
    ensures Get(Applied(disk, first), SuperNo(which)) == Get(disk, SuperNo(which))
  {
    forall i | 0 <= i < |first| ensures first[i].addr != SuperNo(which) {
      assert first[i].addr in dirty && SuperNo(which) in SUPERS;
    }
    AppliedElse(disk, first, SuperNo(which));
  }

  lemma {:induction false} AppliedNone(disk: Image)
    ensures Applied(disk, []) == disk
  {
  }

  lemma {:induction false} NothingCached(cache: seq<Datum>, disk: Image, mem: Image)
    requires Coherent(cache, disk, mem) && cache == []
    ensures forall b :: Get(disk, b) == Get(mem, b)
  {
    forall b ensures Get(disk, b) == Get(mem, b) {
      assert Uncached(cache, b);
    }
  }

  lemma {:induction false} SpaceFlushed(used: set<nat>, freed: set<nat>, dirty: set<nat>, own: set<nat>)
    requires own + SUPERS == used && own !! SUPERS && dirty == {}
    ensures Space(used, {}, dirty, own, own)
  {
  }

  /** The version is no part of the tree. */
  lemma {:induction false} SameButVersion(img: Image, sb: Super, ver: nat, plan: Plan)
    requires WellFormed(img, sb, plan)
    ensures WellFormed(img, sb.(ver := ver), plan) && SameTree(img, sb, img, sb.(ver := ver))
  {
    var sb' := sb.(ver := ver);
    forall i: nat ensures InodeAt(img, sb', i) == InodeAt(img, sb, i) && TableOf(sb', i) == TableOf(sb, i) {
    }
    hide InodeAt, NodeOk, TableOf;
    forall k | 0 <= k < VTABLE_LEN ensures TableOk(img, sb', plan.own, k) {
      assert TableOk(img, sb, plan.own, k);
    }
    forall i ensures Reaches(img, sb, i) <==> Reaches(img, sb', i) {
      if Reaches(img, sb, i) {
        var path :| Leads(img, sb, path, i);
        VersionPath(img, sb, sb', path);
        assert Leads(img, sb', path, i);
      }
      if Reaches(img, sb', i) {
        var path :| Leads(img, sb', path, i);
        VersionPath(img, sb', sb, path);
        assert Leads(img, sb, path, i);
      }
    }
  }

  lemma {:induction false} VersionPath(img: Image, sb: Super, sb': Super, path: seq<nat>)
    requires Path(img, sb, path) && sb'.root == sb.root && forall i: nat :: InodeAt(img, sb', i) == InodeAt(img, sb, i)
    ensures Path(img, sb', path)
  {
    hide InodeAt;
    forall k | 0 <= k < |path| - 1 ensures Child(img, sb', path[k], path[k + 1]) {
      assert Child(img, sb, path[k], path[k + 1]);
    }
  }

  lemma {:induction false} TreeTwice(img: Image, sb: Super, img1: Image, sb1: Super, img2: Image, sb2: Super)
    requires SameTree(img, sb, img1, sb1) && SameTree(img1, sb1, img2, sb2)
    ensures SameTree(img, sb, img2, sb2)
  {
    hide Reaches, NodeAt;
  }

  lemma {:induction false} Reread(mem: Image, disk: Image, sb: Super, plan: Plan)
    requires WellFormed(mem, sb, plan) && forall b :: Get(disk, b) == Get(mem, b)
    ensures SameTree(mem, sb, disk, sb)
  {
    TreeKept(mem, disk, sb, plan);
  }

  /** The superblock write that commits the tree in memory. */
  lemma {:induction false} Committing(mem: Image, sb: Super, disk: Image, which: nat, sb': Super, plan: Plan, csb: Super)
    requires WellFormed(mem, sb, plan) && (forall b :: Get(disk, b) == Get(mem, b)) && which < 2 && sb' == sb.(ver := sb.ver + 1)
    requires Get(disk, SuperNo(which)) == SuperBlock(csb, true) && csb.ver == sb.ver && plan.own.Keys !! SUPERS
    ensures var w := (which + 1) % 2; var disk', mem' := disk[SuperNo(w) := SuperBlock(sb', true)], mem[SuperNo(w) := SuperBlock(sb', true)];
      && Committed(disk', w, sb', plan) && SameTree(mem, sb, disk', sb') && WellFormed(mem', sb', plan)
  {
    hide WellFormed, SameTree;
    var w := (which + 1) % 2;
    var disk', mem' := disk[SuperNo(w) := SuperBlock(sb', true)], mem[SuperNo(w) := SuperBlock(sb', true)];
    assert SuperNo(w) in SUPERS && SuperNo(w) != SuperNo(which);
    SameButVersion(mem, sb, sb'.ver, plan);
    TreeKept(mem, disk', sb', plan);
    TreeKept(mem, mem', sb', plan);
    TreeTwice(mem, sb, mem, sb', disk', sb');
  }

  /** A crash during a flush: after any part of its writes short of the last, or
      with the superblock block holding anything that does not check out, mounting
      finds the tree committed before, and that is as good a start as any. */
  lemma {:induction false} CrashSafe(disk: Image, which: nat, csb: Super, cplan: Plan, writes: seq<Write>, k: nat, torn: Block)
    requires Committed(disk, which, csb, cplan) && Phased(writes, which, cplan) && k < |writes| && !Good(torn)
    ensures var img := Applied(disk, writes[..k]);
      Committed(img, which, csb, cplan) && Chosen(img, csb) && SameTree(disk, csb, img, csb)
    ensures var img := Applied(disk, writes[..|writes| - 1])[SuperNo(1 - which) := torn];
      Committed(img, which, csb, cplan) && Chosen(img, csb) && SameTree(disk, csb, img, csb)
  {
    hide WellFormed, SameTree, Chosen, Applied;
    Interrupted(disk, which, csb, cplan, writes, k);
    CommittedChosen(Applied(disk, writes[..k]), which, csb, cplan);
    Interrupted(disk, which, csb, cplan, writes, |writes| - 1);
    var img := Applied(disk, writes[..|writes| - 1]);
    var img' := img[SuperNo(1 - which) := torn];
    NotSuper(img, which, csb, cplan, disk);
    TreeKept(disk, img', csb, cplan);
    CommittedChosen(img', which, csb, cplan);
  }

  /** Blocks of the plan, and so the tree, keep through what was written. */
  lemma {:induction false} Interrupted(disk: Image, which: nat, csb: Super, cplan: Plan, writes: seq<Write>, k: nat)
    requires Committed(disk, which, csb, cplan) && Phased(writes, which, cplan) && k < |writes|
    ensures var img := Applied(disk, writes[..k]);
      Committed(img, which, csb, cplan) && SameTree(disk, csb, img, csb) && Agrees(disk, img, cplan.own)
  {
    hide WellFormed, SameTree, Applied;
    var img := Applied(disk, writes[..k]);
    forall b | b in cplan.own || b in SUPERS ensures Get(img, b) == Get(disk, b) {
      AppliedElse(disk, writes[..k], b);
    }
    assert SuperNo(which) in SUPERS && SuperNo(1 - which) in SUPERS;
    TreeKept(disk, img, csb, cplan);
  }

  lemma {:induction false} NotSuper(img: Image, which: nat, csb: Super, cplan: Plan, disk: Image)
    requires Committed(disk, which, csb, cplan)
    ensures SuperNo(1 - which) !in cplan.own && SuperNo(which) != SuperNo(1 - which)
  {
    hide TablesOk, NodesOk;
  }

  /** What create and mkdir answer: the checks in their order; only create treats a
      directory of that name, or no name, as a case of its own. */
  function Allowed(mem: Image, sb: Super, dirnode: Inode, name: string, create: bool): Result {
    var ents := Entries(mem, dirnode.first);
    var at := Lookup(ents, name);
    if |name| > FILENAME_MAX then ENameTooLong
    else if create && (name == "" || (at >= 0 && InodeAt(mem, sb, ents[at].inode).dir)) then EIsDir
    else if at >= 0 then EExist
    else if forall e :: 0 <= e < |ents| ==> ents[e].inode != 0 then ENoSpc
    else Done
  }

  lemma {:induction false} AllowedIs(mem: Image, sb: Super, dirnode: Inode, name: string, create: bool, ents: seq<Dirent>, at: int, e: nat)
    requires ents == Entries(mem, dirnode.first) && at == Lookup(ents, name)
    requires e <= |ents| && (e < |ents| ==> ents[e].inode == 0) && forall x :: 0 <= x < e ==> ents[x].inode != 0
    ensures Allowed(mem, sb, dirnode, name, create)
         == if |name| > FILENAME_MAX then ENameTooLong
            else if create && (name == "" || (at >= 0 && InodeAt(mem, sb, ents[at].inode).dir)) then EIsDir
            else if at >= 0 then EExist else if e == |ents| then ENoSpc else Done
    ensures -1 <= at < |ents|
  {
  }

  /** The table of an inode that has an entry. */
  lemma {:induction false} EntryFacts(mem: Image, sb: Super, plan: Plan, d: nat, at: nat)
    requires WellFormed(mem, sb, plan) && d in plan.chains && InodeAt(mem, sb, d).dir
    requires at < |Entries(mem, InodeAt(mem, sb, d).first)| && Entries(mem, InodeAt(mem, sb, d).first)[at].inode != 0
    ensures var i := Entries(mem, InodeAt(mem, sb, d).first)[at].inode; var it := Get(mem, TableOf(sb, i));
      it.ITable? && i % ITABLE_NINODES < |it.inodes| && it.inodes[i % ITABLE_NINODES] == InodeAt(mem, sb, i)
  {
    DirFacts(mem, sb, plan, d);
    var i := Entries(mem, InodeAt(mem, sb, d).first)[at].inode;
    assert NodeOk(mem, plan, d, InodeAt(mem, sb, d));
    assert EntryOk(plan.chains, Get(mem, plan.chains[d][0]).ents[at]);
    hide InodeAt;
    assert NodeOk(mem, plan, i, InodeAt(mem, sb, i));
    TableFacts(mem, sb, plan.own, i);
    TableEntry(mem, sb, i);
  }

  lemma {:induction false} TableEntry(mem: Image, sb: Super, i: nat)
    requires Get(mem, TableOf(sb, i)).ITable? && |Get(mem, TableOf(sb, i)).inodes| == ITABLE_NINODES
    ensures i % ITABLE_NINODES < ITABLE_NINODES
    ensures Get(mem, TableOf(sb, i)).inodes[i % ITABLE_NINODES] == InodeAt(mem, sb, i)
  {
  }

  /** The entry went to the first free place in the directory. */
  ghost predicate LinkedFirst(mem: Image, sb: Super, plan: Plan, mem': Image, sb': Super, dirnode: Inode, entry: Dirent) {
    var ents := Entries(mem, dirnode.first);
    exists e :: 0 <= e < |ents| && ents[e].inode == 0 && (forall x :: 0 <= x < e ==> ents[x].inode != 0)
             && Linked(mem, sb, plan, mem', sb', dirnode.num, ents[e := entry])
  }

  /** A new inode enters the plan: others are as before. */
  lemma {:induction false} Enrolled(mem: Image, sb: Super, plan: Plan, mem1: Image, own1: map<nat, Owner>, mem2: Image, sb2: Super,
                                    plan2: Plan, inode: Inode)
    requires WellFormed(mem, sb, plan) && inode.num !in plan.chains && Agrees(mem, mem1, plan.own)
    requires forall b :: b in plan.own ==> b in own1 && own1[b] == plan.own[b]
    requires Rewritten(mem1, sb, own1, mem2, sb2, plan2.own, inode) && plan2.own.Keys !! SUPERS
    requires inode.num in plan2.chains && plan2.chains == plan.chains[inode.num := plan2.chains[inode.num]]
    requires NodeOk(mem2, plan2, inode.num, inode)
    ensures WellFormed(mem2, sb2, plan2) && NodeAt(mem2, sb2, inode.num) == NodeOf(mem2, inode)
    ensures forall i :: i in plan.chains ==> NodeAt(mem2, sb2, i) == NodeAt(mem, sb, i)
    ensures forall i :: i in plan.chains ==> InodeAt(mem2, sb2, i) == InodeAt(mem, sb, i)
  {
    hide InodeAt, TablesOk, TableOf, NodeAt, NodeOk;
    NodeIs(mem2, sb2, inode);
    forall i | i in plan.chains && i != inode.num ensures KeptInode(mem, sb, mem2, sb2, i) {
      assert TableOf(sb, i) != 0;
      SameInode(mem, mem1, sb, plan, i);
      assert KeptInode(mem1, sb, mem2, sb2, i);
    }
    WellFormedAfter(mem, sb, plan, mem2, sb2, plan2, inode.num);
  }

  function NodeOf(mem: Image, inode: Inode): Node {
    if inode.dir then DirNode(Entries(mem, inode.first)) else FileNode(inode.size, Pieces(mem, inode.first, 0x10000))
  }

  lemma {:induction false} NodeIs(mem: Image, sb: Super, inode: Inode)
    requires InodeAt(mem, sb, inode.num) == inode
    ensures NodeAt(mem, sb, inode.num) == NodeOf(mem, inode)
  {
  }

  lemma {:induction false} FileEnrolled(mem: Image, sb: Super, plan: Plan, mem2: Image, sb2: Super, plan2: Plan, inode: Inode)
    requires WellFormed(mem, sb, plan) && inode.num !in plan.chains && 0 < inode.num < VTABLE_LEN * ITABLE_NINODES
    requires inode == Inode(inode.num, 0, 0, 0, false) && plan2.chains == plan.chains[inode.num := []]
    requires Rewritten(mem, sb, plan.own, mem2, sb2, plan2.own, inode) && plan2.own.Keys !! SUPERS
    ensures WellFormed(mem2, sb2, plan2) && NodeAt(mem2, sb2, inode.num) == FileNode(0, [])
    ensures forall i :: i in plan.chains ==> NodeAt(mem2, sb2, i) == NodeAt(mem, sb, i)
    ensures plan2.chains.Keys == plan.chains.Keys + {inode.num}
    ensures forall i :: i in plan.chains ==> InodeAt(mem2, sb2, i) == InodeAt(mem, sb, i)
  {
    hide InodeAt, TablesOk, TableOf, NodeAt, Rewritten, WellFormed;
    Enrolled(mem, sb, plan, mem, plan.own, mem2, sb2, plan2, inode);
    assert Pieces(mem2, 0, 0x10000) == [];
  }

  /** A directory that is as it was has the entries it had. */
  lemma {:induction false} DirSame(mem: Image, sb: Super, mem': Image, sb': Super, dirnode: Inode)
    requires dirnode.dir && InodeAt(mem, sb, dirnode.num) == dirnode && InodeAt(mem', sb', dirnode.num) == dirnode
    requires NodeAt(mem', sb', dirnode.num) == NodeAt(mem, sb, dirnode.num)
    ensures Entries(mem', dirnode.first) == Entries(mem, dirnode.first)
  {
  }

  lemma {:induction false} LookupRange(ents: seq<Dirent>, name: string)
    ensures -1 <= Lookup(ents, name) < |ents| && (Lookup(ents, name) >= 0 ==> ents[Lookup(ents, name)].inode != 0)
  {
  }

  /** A new directory: itself, its parent, and nothing else. */
  function NewDir(i: nat, parent: nat): (ents: seq<Dirent>)
    ensures |ents| == DIR_NENTS
  {
    [Dirent(i, "."), Dirent(parent, "..")] + seq(DIR_NENTS - 2, _ => Dirent(0, ""))
  }

  /** Looking up "." leads to inode self, ".." to parent, and no other name to any; no
      entry but the two found is in use. */
  ghost predicate LinksOnly(ents: seq<Dirent>, self: nat, parent: nat) {
    var dot, dots := Lookup(ents, "."), Lookup(ents, "..");
    && |ents| == DIR_NENTS && dot >= 0 && ents[dot].inode == self && dots >= 0 && ents[dots].inode == parent
    && (forall e :: 0 <= e < |ents| && e != dot && e != dots ==> ents[e].inode == 0)
    && forall name :: name != "." && name != ".." ==> Lookup(ents, name) == -1
  }

  lemma {:induction false} NewDirLinks(i: nat, parent: nat)
    requires i > 0 && parent > 0
    ensures LinksOnly(NewDir(i, parent), i, parent)
  {
    var ents := NewDir(i, parent);
    assert ents[0] == Dirent(i, ".") && ents[1] == Dirent(parent, "..");
    assert forall e :: 2 <= e < |ents| ==> ents[e].inode == 0;
    assert "." != ".." by { assert |"."| != |".."|; }
  }

  /** The least number that is not among those in use or freed. */
  ghost predicate LeastFree(taken: set<nat>, n: nat) {
    n !in taken && forall b: nat :: b < n ==> b in taken
  }

  lemma {:induction false} NowLeast(taken: set<nat>, n: nat)
    requires n !in taken && forall b: nat :: b < n ==> b in taken
    ensures LeastFree(taken, n)
  {
  }

  lemma {:induction false} NewBlockTables(mem: Image, sb: Super, plan: Plan, b: nat, x: Block, i: nat)
    requires WellFormed(mem, sb, plan) && b !in plan.own && b != 0
    ensures TablesOk(mem[b := x], sb, plan.own[b := PartOf(i, 0)])
  {
    var own', mem' := plan.own[b := PartOf(i, 0)], mem[b := x];
    forall k | 0 <= k < VTABLE_LEN ensures TableOk(mem', sb, own', k) {
      assert TableOk(mem, sb, plan.own, k);
    }
  }

  lemma {:induction false} DirEnrolled(mem: Image, sb: Super, plan: Plan, mem1: Image, own1: map<nat, Owner>, mem2: Image, sb2: Super,
                                       plan2: Plan, inode: Inode, parent: nat)
    requires WellFormed(mem, sb, plan) && inode.num !in plan.chains && 0 < inode.num < VTABLE_LEN * ITABLE_NINODES
    requires inode.dir && inode.first == inode.last && inode.first !in plan.own && inode.first != 0 && inode.size == 0 && parent in plan.chains
    requires mem1 == mem[inode.first := Directory(NewDir(inode.num, parent))] && own1 == plan.own[inode.first := PartOf(inode.num, 0)]
    requires Rewritten(mem1, sb, own1, mem2, sb2, plan2.own, inode) && plan2.own.Keys !! SUPERS
    requires plan2.chains == plan.chains[inode.num := [inode.first]]
    ensures WellFormed(mem2, sb2, plan2) && NodeAt(mem2, sb2, inode.num) == DirNode(NewDir(inode.num, parent))
    ensures forall i :: i in plan.chains ==> NodeAt(mem2, sb2, i) == NodeAt(mem, sb, i)
    ensures forall i :: i in plan.chains ==> InodeAt(mem2, sb2, i) == InodeAt(mem, sb, i)
    ensures plan2.chains.Keys == plan.chains.Keys + {inode.num}
  {
    hide InodeAt, TablesOk, TableOf, NodeAt, WellFormed;
    var b := inode.first;
    assert own1[b] == PartOf(inode.num, 0) && plan2.own[b] == PartOf(inode.num, 0);
    assert Get(mem2, b) == Get(mem1, b) == Directory(NewDir(inode.num, parent));
    var ents := NewDir(inode.num, parent);
    assert forall e :: 0 <= e < DIR_NENTS ==> EntryOk(plan2.chains, ents[e]);
    Enrolled(mem, sb, plan, mem1, own1, mem2, sb2, plan2, inode);
  }

  /** Making the inode and then linking it, seen as one. */
  lemma {:induction false} LinkedAfter(mem: Image, sb: Super, plan: Plan, mem1: Image, sb1: Super, plan1: Plan, mem2: Image, sb2: Super,
                                       dirnode: Inode, ents: seq<Dirent>, e: nat, i: nat, name: string, node: Node)
    requires WellFormed(mem, sb, plan) && dirnode.num in plan.chains && dirnode.dir && InodeAt(mem, sb, dirnode.num) == dirnode
    requires i !in plan.chains && plan1.chains.Keys == plan.chains.Keys + {i} && sb1.root == sb.root
    requires forall k :: k in plan.chains ==> NodeAt(mem1, sb1, k) == NodeAt(mem, sb, k)
    requires NodeAt(mem1, sb1, i) == node && ents == Entries(mem, dirnode.first)
    requires e < |ents| && ents[e].inode == 0 && forall x :: 0 <= x < e ==> ents[x].inode != 0
    requires Linked(mem1, sb1, plan1, mem2, sb2, dirnode.num, ents[e := Dirent(i, name)])
    ensures NodeAt(mem2, sb2, i) == node
    ensures LinkedFirst(mem, sb, plan, mem2, sb2, dirnode, Dirent(i, name))
  {
    hide InodeAt, NodeAt, WellFormed;
    assert Linked(mem, sb, plan, mem2, sb2, dirnode.num, ents[e := Dirent(i, name)]);
  }

  lemma {:induction false} RewrittenInode(mem: Image, sb: Super, own: map<nat, Owner>, mem': Image, sb': Super, own': map<nat, Owner>, inode: Inode)
    requires Rewritten(mem, sb, own, mem', sb', own', inode)
    ensures InodeAt(mem', sb', inode.num) == inode
  {
  }

  lemma {:induction false} RewrittenParts(mem: Image, sb: Super, own: map<nat, Owner>, mem': Image, sb': Super, own': map<nat, Owner>, inode: Inode)
    requires Rewritten(mem, sb, own, mem', sb', own', inode)
    ensures PartsKept(mem, own, mem', own')
  {
  }

  lemma {:induction false} PartStays(mem: Image, own: map<nat, Owner>, mem': Image, own': map<nat, Owner>, b: nat)
    requires PartsKept(mem, own, mem', own') && b in own && own[b].PartOf?
    ensures b in own'
  {
  }

  lemma {:induction false} ChainKeys(chains: map<nat, seq<nat>>, d: nat, c: seq<nat>)
    requires d in chains
    ensures chains[d := c].Keys == chains.Keys
  {
  }

  lemma {:induction false} DirFacts(mem: Image, sb: Super, plan: Plan, d: nat)
    requires WellFormed(mem, sb, plan) && d in plan.chains && InodeAt(mem, sb, d).dir
    ensures var b := InodeAt(mem, sb, d).first;
      && 0 < d < VTABLE_LEN * ITABLE_NINODES && InodeAt(mem, sb, d).num == d && plan.chains[d] == [b]
      && b in plan.own && plan.own[b] == PartOf(d, 0)
      && Get(mem, b) == Directory(Entries(mem, b)) && |Entries(mem, b)| == DIR_NENTS
  {
    hide InodeAt, TablesOk;
    assert NodeOk(mem, plan, d, InodeAt(mem, sb, d));
  }

  lemma {:induction false} TablesMoved(mem: Image, sb: Super, plan: Plan, d: nat, b2: nat)
    requires WellFormed(mem, sb, plan) && d in plan.chains && InodeAt(mem, sb, d).dir && b2 !in plan.own
    ensures TablesOk(mem, sb, (plan.own - {InodeAt(mem, sb, d).first})[b2 := PartOf(d, 0)])
  {
    DirFacts(mem, sb, plan, d);
    hide InodeAt;
    var own' := (plan.own - {InodeAt(mem, sb, d).first})[b2 := PartOf(d, 0)];
    forall k | 0 <= k < VTABLE_LEN ensures TableOk(mem, sb, own', k) {
      assert TableOk(mem, sb, plan.own, k);
    }
  }

  /** Reading inodes does not touch blocks that are not tables. */
  lemma {:induction false} TablesElse(mem: Image, sb: Super, own: map<nat, Owner>, b: nat, x: Block)
    requires TablesOk(mem, sb, own) && (b in own ==> own[b].PartOf?) && b != 0
    ensures TablesOk(mem[b := x], sb, own) && forall i: nat :: TableOf(sb, i) != 0 ==> KeptInode(mem, sb, mem[b := x], sb, i)
  {
    var mem' := mem[b := x];
    forall k | 0 <= k < VTABLE_LEN ensures TableOk(mem', sb, own, k) {
      assert TableOk(mem, sb, own, k);
    }
    forall i: nat | TableOf(sb, i) != 0 ensures KeptInode(mem, sb, mem', sb, i) {
      assert TableOk(mem, sb, own, i / ITABLE_NINODES);
    }
  }

  lemma {:induction false} RelinkedInPlace(mem: Image, sb: Super, plan: Plan, d: nat, inum: nat, e: nat, name: string)
    requires WellFormed(mem, sb, plan) && d in plan.chains && inum in plan.chains && InodeAt(mem, sb, d).dir
    requires e < |Entries(mem, InodeAt(mem, sb, d).first)|
    ensures var b := InodeAt(mem, sb, d).first; var ents' := Entries(mem, b)[e := Dirent(inum, name)];
      && WellFormed(mem[b := Directory(ents')], sb, plan)
      && Linked(mem, sb, plan, mem[b := Directory(ents')], sb, d, ents')
  {
    DirFacts(mem, sb, plan, d);
    hide InodeAt, TablesOk, TableOf, NodeAt;
    var inode := InodeAt(mem, sb, d);
    var b := inode.first;
    var ents' := Entries(mem, b)[e := Dirent(inum, name)];
    var mem' := mem[b := Directory(ents')];
    TablesElse(mem, sb, plan.own, b, Directory(ents'));
    assert KeptInode(mem, sb, mem', sb, d) && NodeOk(mem, plan, d, inode);
    NewEntries(mem, plan, plan.chains, d, inode, inum, e, name);
    WellFormedAfter(mem, sb, plan, mem', sb, plan, d);
    DirNow(mem', sb, d, b, ents');
  }

  /** The entries of a directory with one of them set. */
  lemma {:induction false} NewEntries(mem: Image, plan: Plan, chains: map<nat, seq<nat>>, d: nat, inode: Inode, inum: nat, e: nat, name: string)
    requires d in plan.chains && NodeOk(mem, plan, d, inode) && inode.dir && chains.Keys == plan.chains.Keys && inum in plan.chains
    requires e < |Entries(mem, inode.first)|
    ensures |Entries(mem, inode.first)| == DIR_NENTS
    ensures AllEntriesOk(chains, Entries(mem, inode.first)[e := Dirent(inum, name)])
  {
    var ents' := Entries(mem, inode.first)[e := Dirent(inum, name)];
    forall x | 0 <= x < |ents'| ensures EntryOk(chains, ents'[x]) {
      assert EntryOk(plan.chains, Get(mem, plan.chains[d][0]).ents[x]);
    }
  }

  ghost predicate AllEntriesOk(chains: map<nat, seq<nat>>, ents: seq<Dirent>) {
    forall x :: 0 <= x < |ents| ==> EntryOk(chains, ents[x])
  }

  lemma {:induction false} DirNow(mem: Image, sb: Super, d: nat, b: nat, ents: seq<Dirent>)
    requires InodeAt(mem, sb, d).dir && InodeAt(mem, sb, d).first == b && Get(mem, b) == Directory(ents)
    ensures NodeAt(mem, sb, d) == DirNode(ents)
  {
  }

  /** The directory moved to block b2, its inode with it. */
  lemma {:induction false} RelinkedByCopy(mem: Image, sb: Super, plan: Plan, own1: map<nat, Owner>, mem2: Image, sb2: Super,
                                          own2: map<nat, Owner>, inode': Inode, b2: nat, inum: nat, e: nat, name: string)
    requires var d := inode'.num;
      && WellFormed(mem, sb, plan) && d in plan.chains && inum in plan.chains && InodeAt(mem, sb, d).dir
      && e < |Entries(mem, InodeAt(mem, sb, d).first)| && b2 !in plan.own && b2 != 0
      && inode' == InodeAt(mem, sb, d).(first := b2, last := b2)
      && own1 == (plan.own - {InodeAt(mem, sb, d).first})[b2 := PartOf(d, 0)]
    requires Rewritten(mem, sb, own1, mem2, sb2, own2, inode') && own2.Keys !! SUPERS
    ensures var d := inode'.num; var ents' := Entries(mem, InodeAt(mem, sb, d).first)[e := Dirent(inum, name)];
      var mem', plan' := mem2[b2 := Directory(ents')], Plan(plan.chains[d := [b2]], own2);
      && WellFormed(mem', sb2, plan') && Linked(mem, sb, plan, mem', sb2, d, ents')
  {
    var d := inode'.num;
    DirFacts(mem, sb, plan, d);
    hide InodeAt, TablesOk, TableOf, NodeAt;
    var b := InodeAt(mem, sb, d).first;
    var ents' := Entries(mem, b)[e := Dirent(inum, name)];
    var mem', plan' := mem2[b2 := Directory(ents')], Plan(plan.chains[d := [b2]], own2);
    assert own1[b2] == PartOf(d, 0) && own2[b2] == PartOf(d, 0);
    TablesElse(mem2, sb2, own2, b2, Directory(ents'));
    assert KeptInode(mem2, sb2, mem', sb2, d);
    assert NodeOk(mem, plan, d, InodeAt(mem, sb, d));
    NewEntries(mem, plan, plan'.chains, d, InodeAt(mem, sb, d), inum, e, name);
    OthersMoved(mem, sb, plan, own1, mem2, sb2, own2, mem', plan', inode', b, b2);
    WellFormedAfter(mem, sb, plan, mem', sb2, plan', d);
    DirNow(mem', sb2, d, b2, ents');
  }

  lemma {:induction false} OthersMoved(mem: Image, sb: Super, plan: Plan, own1: map<nat, Owner>, mem2: Image, sb2: Super,
                                       own2: map<nat, Owner>, mem': Image, plan': Plan, inode': Inode, b: nat, b2: nat)
    requires inode'.num in plan.chains && WellFormed(mem, sb, plan) && b in plan.own && plan.own[b] == PartOf(inode'.num, 0)
    requires own1 == (plan.own - {b})[b2 := PartOf(inode'.num, 0)] && b2 !in plan.own
    requires plan' == Plan(plan.chains[inode'.num := [b2]], own2)
    requires Rewritten(mem, sb, own1, mem2, sb2, own2, inode')
    requires forall i: nat :: TableOf(sb2, i) != 0 ==> KeptInode(mem2, sb2, mem', sb2, i)
    requires forall x :: x != b2 ==> Get(mem', x) == Get(mem2, x)
    ensures OthersKept(mem, sb, plan, mem', sb2, plan', inode'.num)
  {
    hide InodeAt, TablesOk, TableOf, NodeAt, NodeOk;
    forall i | i in plan.chains && i != inode'.num ensures KeptInode(mem, sb, mem', sb2, i) {
      assert TableOf(sb, i) != 0;
      assert KeptInode(mem, sb, mem2, sb2, i);
      assert KeptInode(mem2, sb2, mem', sb2, i);
    }
  }

  lemma {:induction false} StartSpace(used: set<nat>, freed: set<nat>, mem: Image, sb: Super, plan: Plan)
    requires WellFormed(mem, sb, plan) && plan.own.Keys + SUPERS == used
    ensures Space(used, freed, {}, plan.own.Keys, plan.own.Keys)
  {
  }

  lemma {:induction false} NowTable(s0: Super, s1: Super, num: nat, block: nat)
    requires num < VTABLE_LEN * ITABLE_NINODES && |s0.vtable| == VTABLE_LEN
    requires s1 == s0.(vtable := s0.vtable[num / ITABLE_NINODES := block])
    ensures TableOf(s1, num) == block
  {
  }

  lemma {:induction false} TableFacts(mem: Image, sb: Super, own: map<nat, Owner>, i: nat)
    requires TablesOk(mem, sb, own) && i < VTABLE_LEN * ITABLE_NINODES
    ensures i / ITABLE_NINODES < |sb.vtable| && i % ITABLE_NINODES < ITABLE_NINODES
    ensures i / ITABLE_NINODES < VTABLE_LEN && |sb.vtable| == VTABLE_LEN
    ensures var t := TableOf(sb, i); t != 0 ==>
      t in own && own[t] == TableNo(i / ITABLE_NINODES) && Get(mem, t).ITable? && |Get(mem, t).inodes| == ITABLE_NINODES
  {
    assert TableOk(mem, sb, own, i / ITABLE_NINODES);
  }

  /** Copying block t of the current tree to block b. */
  lemma {:induction false} Moved(used: set<nat>, freed: set<nat>, dirty: set<nat>, own: set<nat>, cown: set<nat>, t: nat, b: nat)
    requires Space(used, freed, dirty, own, cown) && b !in used + freed && t in own
    ensures b !in own && b != 0 && b != t
    ensures Space(used + {b} - {t}, freed + {t}, dirty + {b}, own - {t} + {b}, cown) && t in used + {b}
    ensures Space(used + {b} - {t}, freed + {t}, dirty, own - {t} + {b}, cown)
  {
  }

  lemma {:induction false} OwnMore(own: map<nat, Owner>, b: nat, o: Owner)
    ensures own[b := o].Keys == own.Keys + {b}
  {
  }

  lemma {:induction false} OwnWithout(own: map<nat, Owner>, t: nat, b: nat, o: Owner)
    requires t !in own
    ensures own[b := o] == (own - {t})[b := o]
  {
  }

  lemma {:induction false} OwnSame(own: map<nat, Owner>, t: nat, o: Owner)
    requires t in own && own[t] == o
    ensures own == (own - {t})[t := o]
  {
  }

  lemma {:induction false} OwnKeys(own: map<nat, Owner>, t: nat, b: nat, o: Owner)
    ensures (own - {t})[b := o].Keys == own.Keys - {t} + {b}
  {
  }
}
