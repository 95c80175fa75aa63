/** Mounting: the choice of a superblock, and the marking of everything its tree
    reaches. */
module CrfsMount {
  import opened CrfsImage
  import opened CrfsFreemap
  import opened CrfsStore
  import opened Crfs

  // --------------------------------------------------------------- reachability

  /** A way down from inode i. */
  ghost predicate Way(img: Image, sb: Super, i: nat, path: seq<nat>) {
    |path| > 0 && path[0] == i && forall k :: 0 <= k < |path| - 1 ==> Child(img, sb, path[k], path[k + 1])
  }

  ghost predicate WayTo(img: Image, sb: Super, i: nat, path: seq<nat>, j: nat) {
    Way(img, sb, i, path) && path[|path| - 1] == j
  }

  ghost predicate Below(img: Image, sb: Super, i: nat, j: nat) {
    exists path :: WayTo(img, sb, i, path, j)
  }

  lemma {:induction false} BelowSelf(img: Image, sb: Super, i: nat)
    ensures Below(img, sb, i, i)
  {
    assert WayTo(img, sb, i, [i], i);
  }

  lemma {:induction false} BelowChild(img: Image, sb: Super, i: nat, c: nat, j: nat)
    requires Child(img, sb, i, c) && Below(img, sb, c, j)
    ensures Below(img, sb, i, j)
  {
    hide Child;
    var path :| WayTo(img, sb, c, path, j);
    var longer := [i] + path;
    forall k | 0 <= k < |longer| - 1 ensures Child(img, sb, longer[k], longer[k + 1]) {
      if k > 0 { assert Child(img, sb, path[k - 1], path[k - 1 + 1]); }
    }
    assert WayTo(img, sb, i, longer, j);
  }

  /** The children of an inode are in s. */
  ghost predicate Closed(img: Image, sb: Super, i: nat, s: set<nat>) {
    forall c :: Child(img, sb, i, c) ==> c in s
  }

  /** What starts in a set that has the children of its members stays in it. */
  lemma {:induction false} StaysIn(img: Image, sb: Super, i: nat, path: seq<nat>, k: nat, s: set<nat>, from: set<nat>)
    requires Way(img, sb, i, path) && k < |path| && i in from
    requires forall j :: j in from ==> Closed(img, sb, j, s)
    requires s <= from + {0}
    ensures path[k] in from
    decreases k
  {
    hide Child;
    if k > 0 {
      StaysIn(img, sb, i, path, k - 1, s, from);
      assert Child(img, sb, path[k - 1], path[k - 1 + 1]);
      assert Closed(img, sb, path[k - 1], s);
      NotZero(img, sb, path[k - 1], path[k]);
    }
  }

  lemma {:induction false} NotZero(img: Image, sb: Super, i: nat, j: nat)
    requires Child(img, sb, i, j)
    ensures j != 0
  {
  }

  // ------------------------------------------------------------------- marking

  /** The blocks of the chains of some inodes. */
  ghost function BlocksOf(plan: Plan, s: set<nat>): set<nat> {
    set i, b | i in s && i in plan.chains && b in plan.chains[i] :: b
  }

  lemma {:induction false} BlocksOfMore(plan: Plan, s: set<nat>, t: set<nat>)
    ensures BlocksOf(plan, s + t) == BlocksOf(plan, s) + BlocksOf(plan, t)
  {
  }

  lemma {:induction false} InBlocksOf(plan: Plan, s: set<nat>, i: nat, b: nat)
    requires i in s && i in plan.chains && b in plan.chains[i]
    ensures b in BlocksOf(plan, s)
  {
  }

  lemma {:induction false} BlocksOfOne(plan: Plan, i: nat)
    requires i in plan.chains
    ensures BlocksOf(plan, {i}) == set b | b in plan.chains[i]
  {
  }

  /** The maps are large enough for the image. */
  ghost predicate Fits(plan: Plan, blocks: nat, inodes: nat) {
    VTABLE_LEN * ITABLE_NINODES <= 8 * inodes && 16 < 8 * blocks && forall b :: b in plan.own ==> b < 8 * blocks
  }

  /** What marking from inode i has added: inodes below i, all their children
      marked, and exactly their blocks. */
  ghost predicate Marked(img: Image, sb: Super, plan: Plan, i: nat, was: set<nat>, now: set<nat>, bwas: set<nat>, bnow: set<nat>) {
    && was <= now && i in now && now - was <= plan.chains.Keys
    && (forall j :: j in now - was ==> Below(img, sb, i, j) && Closed(img, sb, j, now))
    && bnow == bwas + BlocksOf(plan, now - was)
  }

  /** mark_inode. It ends in spite of "." and "..", for each call marks one inode
      more. */
  method MarkInode(store: BlockStore, sb: Super, inodes: Freemap, blocks: Freemap, i: nat, ghost plan: Plan)
    requires store.Valid() && inodes.Valid() && blocks.Valid() && inodes != blocks
    requires WellFormed(store.mem, sb, plan) && i in plan.chains && i !in inodes.Used()
    requires Fits(plan, |blocks.inUse|, |inodes.inUse|)
    modifies store`cache, inodes, blocks
    ensures store.Valid() && inodes.Valid() && blocks.Valid() && store.Dirty() == old(store.Dirty())
    ensures |blocks.inUse| == |old(blocks.inUse)| && |inodes.inUse| == |old(inodes.inUse)|
    ensures blocks.Freed() == old(blocks.Freed()) && inodes.Freed() == old(inodes.Freed())
    ensures Marked(store.mem, sb, plan, i, old(inodes.Used()), inodes.Used(), old(blocks.Used()), blocks.Used())
    decreases |plan.chains.Keys - inodes.Used()|, 0
  {
    hide *;
    ghost var was, bwas, img := inodes.Used(), blocks.Used(), store.mem;
    InodeFacts(img, sb, plan, i, |blocks.inUse|, |inodes.inUse|);
    inodes.Mark(i);
    var it := store.Read(TableOf(sb, i));
    var inode := it.inodes[i % ITABLE_NINODES];
    if inode.dir {
      blocks.Mark(inode.first);
      var d := store.Read(inode.first);
      MarkStart(img, sb, plan, i, was, bwas);
      PartlyFewer(img, sb, plan, i, was, inodes.Used(), bwas, blocks.Used(), d.ents, 0);
      var e := 0;
      while e < DIR_NENTS
        invariant 0 <= e <= DIR_NENTS && store.Valid() && inodes.Valid() && blocks.Valid() && store.Dirty() == old(store.Dirty())
        invariant |blocks.inUse| == |old(blocks.inUse)| && |inodes.inUse| == |old(inodes.inUse)|
        invariant blocks.Freed() == old(blocks.Freed()) && inodes.Freed() == old(inodes.Freed())
        invariant Partly(img, sb, plan, i, was, inodes.Used(), bwas, blocks.Used(), d.ents, e)
        invariant |plan.chains.Keys - inodes.Used()| < |plan.chains.Keys - was|
      {
        MarkEntry(store, sb, inodes, blocks, i, d.ents, e, plan, was, bwas);
        e := e + 1;
        PartlyFewer(img, sb, plan, i, was, inodes.Used(), bwas, blocks.Used(), d.ents, e);
      }
      WhollyMarked(img, sb, plan, i, was, inodes.Used(), bwas, blocks.Used(), d.ents);
    } else {
      MarkChain(store, blocks, inode.first, plan.chains[i]);
      FileMarked(img, sb, plan, i, was, bwas);
    }
  }

  /** "mark inodes for every dirent", unless they are marked already. */
  method MarkEntry(store: BlockStore, sb: Super, inodes: Freemap, blocks: Freemap, ghost i: nat, ents: seq<Dirent>, e: nat,
                   ghost plan: Plan, ghost was: set<nat>, ghost bwas: set<nat>)
    requires store.Valid() && inodes.Valid() && blocks.Valid() && inodes != blocks
    requires WellFormed(store.mem, sb, plan) && i in plan.chains && e < DIR_NENTS
    requires Fits(plan, |blocks.inUse|, |inodes.inUse|)
    requires Partly(store.mem, sb, plan, i, was, inodes.Used(), bwas, blocks.Used(), ents, e)
    modifies store`cache, inodes, blocks
    ensures store.Valid() && inodes.Valid() && blocks.Valid() && store.Dirty() == old(store.Dirty())
    ensures |blocks.inUse| == |old(blocks.inUse)| && |inodes.inUse| == |old(inodes.inUse)|
    ensures blocks.Freed() == old(blocks.Freed()) && inodes.Freed() == old(inodes.Freed())
    ensures Partly(store.mem, sb, plan, i, was, inodes.Used(), bwas, blocks.Used(), ents, e + 1)
    decreases |plan.chains.Keys - inodes.Used()|, 1
  {
    hide *;
    ghost var mid, bmid, img := inodes.Used(), blocks.Used(), store.mem;
    EntryMarked(img, sb, plan, i, was, mid, bwas, bmid, ents, e, |blocks.inUse|, |inodes.inUse|);
    var j := ents[e].inode;
    var marked := true;
    if j != 0 {
      marked := IsMarked(inodes, j);
    }
    if marked {
      PartlySame(img, sb, plan, i, was, mid, bwas, bmid, ents, e);
    } else {
      MarkInode(store, sb, inodes, blocks, j, plan);
      PartlyMore(img, sb, plan, i, was, mid, inodes.Used(), bwas, bmid, blocks.Used(), ents, e);
    }
  }

  /** freemap_isset */
  method IsMarked(m: Freemap, b: nat) returns (r: bool)
    requires m.Valid() && b < 8 * |m.inUse|
    ensures r <==> b in m.Used()
  {
    r := IsSet(m.inUse, b);
  }

  /** "walk the chain of file blocks" */
  method MarkChain(store: BlockStore, blocks: Freemap, first: nat, ghost chain: seq<nat>)
    requires store.Valid() && blocks.Valid() && FileOk(store.mem, chain) && first == (if chain == [] then 0 else chain[0])
    requires forall p :: 0 <= p < |chain| ==> 0 != chain[p] < 8 * |blocks.inUse|
    modifies store`cache, blocks
    ensures store.Valid() && blocks.Valid() && store.Dirty() == old(store.Dirty()) && |blocks.inUse| == |old(blocks.inUse)|
    ensures blocks.Used() == old(blocks.Used()) + (set b | b in chain) && blocks.Freed() == old(blocks.Freed())
  {
    hide *;
    var block := first;
    ghost var p := 0;
    while block != 0
      invariant p <= |chain| && block == (if p < |chain| then chain[p] else 0)
      invariant store.Valid() && blocks.Valid() && store.Dirty() == old(store.Dirty()) && |blocks.inUse| == |old(blocks.inUse)|
      invariant blocks.Used() == old(blocks.Used()) + (set b | b in chain[..p]) && blocks.Freed() == old(blocks.Freed())
      decreases |chain| - p
    {
      blocks.Mark(block);
      var f := store.Read(block);
      LinkFacts(store.mem, chain, p);
      assert chain[..p + 1] == chain[..p] + [chain[p]];
      block := f.next;
      p := p + 1;
    }
    assert chain[..|chain|] == chain;
  }

  lemma {:induction false} LinkFacts(img: Image, chain: seq<nat>, p: nat)
    requires FileOk(img, chain) && p < |chain|
    ensures Get(img, chain[p]).Piece? && Get(img, chain[p]).next == if p + 1 < |chain| then chain[p + 1] else 0
  {
    assert LinkOk(img, chain, p);
  }

  ghost predicate IsDirectory(img: Image, b: nat)
    ensures IsDirectory(img, b) ==> Get(img, b).Directory?
  {
    Get(img, b).Directory? && |Get(img, b).ents| == DIR_NENTS
  }

  lemma {:induction false} InodeFacts(img: Image, sb: Super, plan: Plan, i: nat, blocks: nat, inodes: nat)
    requires WellFormed(img, sb, plan) && i in plan.chains && Fits(plan, blocks, inodes)
    ensures 0 < i < 8 * inodes && ITABLE_NINODES > 0
    ensures var it := Get(img, TableOf(sb, i));
      it.ITable? && i % ITABLE_NINODES < |it.inodes| && it.inodes[i % ITABLE_NINODES] == InodeAt(img, sb, i)
    ensures var inode, chain := InodeAt(img, sb, i), plan.chains[i];
      && inode.first == (if chain == [] then 0 else chain[0])
      && (inode.dir ==> chain == [inode.first] && inode.first < 8 * blocks && IsDirectory(img, inode.first))
      && (!inode.dir ==> FileOk(img, chain))
      && forall p :: 0 <= p < |chain| ==> 0 != chain[p] < 8 * blocks
  {
    hide InodeAt, TablesOk;
    assert NodeOk(img, plan, i, InodeAt(img, sb, i));
    TableFacts(img, sb, plan.own, i);
    TableEntry(img, sb, i);
    var chain := plan.chains[i];
    forall p | 0 <= p < |chain| ensures 0 != chain[p] < 8 * blocks {
      assert chain[p] in plan.own;
    }
  }

  /** Part way through a directory: its first e entries are marked. */
  ghost predicate Partly(img: Image, sb: Super, plan: Plan, i: nat, was: set<nat>, now: set<nat>, bwas: set<nat>, bnow: set<nat>,
                         ents: seq<Dirent>, e: nat) {
    && i !in was && was + {i} <= now && now - was <= plan.chains.Keys && e <= |ents| == DIR_NENTS
    && InodeAt(img, sb, i).dir && ents == Entries(img, InodeAt(img, sb, i).first)
    && (forall j :: j in now - was ==> Below(img, sb, i, j) && (j != i ==> Closed(img, sb, j, now)))
    && (forall x :: 0 <= x < e ==> ents[x].inode == 0 || ents[x].inode in now)
    && bnow == bwas + BlocksOf(plan, now - was)
  }

  lemma {:induction false} MarkStart(img: Image, sb: Super, plan: Plan, i: nat, was: set<nat>, bwas: set<nat>)
    requires WellFormed(img, sb, plan) && i in plan.chains && i !in was && InodeAt(img, sb, i).dir
    requires plan.chains[i] == [InodeAt(img, sb, i).first] && IsDirectory(img, InodeAt(img, sb, i).first)
    ensures var inode := InodeAt(img, sb, i);
      Partly(img, sb, plan, i, was, was + {i}, bwas, bwas + {inode.first}, Get(img, inode.first).ents, 0)
  {
    hide InodeAt, WellFormed, Child;
    BelowSelf(img, sb, i);
    assert was + {i} - was == {i};
    BlocksOfOne(plan, i);
  }

  lemma {:induction false} Shrinks(s: set<nat>, was: set<nat>, i: nat)
    requires i in s && i !in was
    ensures |s - (was + {i})| < |s - was|
  {
    assert s - (was + {i}) == (s - was) - {i};
  }

  /** An entry's inode is in use, and fits the map. */
  lemma {:induction false} EntryMarked(img: Image, sb: Super, plan: Plan, i: nat, was: set<nat>, now: set<nat>, bwas: set<nat>,
                                       bnow: set<nat>, ents: seq<Dirent>, e: nat, blocks: nat, inodes: nat)
    requires WellFormed(img, sb, plan) && i in plan.chains && e < DIR_NENTS && Fits(plan, blocks, inodes)
    requires Partly(img, sb, plan, i, was, now, bwas, bnow, ents, e)
    ensures e < |ents| && (ents[e].inode != 0 ==> ents[e].inode in plan.chains && ents[e].inode < 8 * inodes)
    ensures ents[e].inode != 0 ==> Child(img, sb, i, ents[e].inode)
  {
    hide InodeAt, TablesOk;
    assert NodeOk(img, plan, i, InodeAt(img, sb, i));
    assert EntryOk(plan.chains, ents[e]);
    if ents[e].inode != 0 {
      assert NodeOk(img, plan, ents[e].inode, InodeAt(img, sb, ents[e].inode));
    }
  }

  /** Fewer inodes are left to mark than when inode i was. */
  lemma {:induction false} PartlyFewer(img: Image, sb: Super, plan: Plan, i: nat, was: set<nat>, now: set<nat>, bwas: set<nat>,
                                       bnow: set<nat>, ents: seq<Dirent>, e: nat)
    requires Partly(img, sb, plan, i, was, now, bwas, bnow, ents, e) && i in plan.chains
    ensures |plan.chains.Keys - now| < |plan.chains.Keys - was|
  {
    hide InodeAt, Below, Closed;
    Shrinks(plan.chains.Keys, was, i);
    var a, b := plan.chains.Keys - now, plan.chains.Keys - (was + {i});
    assert b == a + (b - a);
  }

  lemma {:induction false} PartlySame(img: Image, sb: Super, plan: Plan, i: nat, was: set<nat>, now: set<nat>, bwas: set<nat>,
                                      bnow: set<nat>, ents: seq<Dirent>, e: nat)
    requires Partly(img, sb, plan, i, was, now, bwas, bnow, ents, e) && e < |ents| && (ents[e].inode == 0 || ents[e].inode in now)
    ensures Partly(img, sb, plan, i, was, now, bwas, bnow, ents, e + 1)
  {
    hide InodeAt, Below, Closed;
  }

  lemma {:induction false} PartlyMore(img: Image, sb: Super, plan: Plan, i: nat, was: set<nat>, mid: set<nat>, now: set<nat>,
                                      bwas: set<nat>, bmid: set<nat>, bnow: set<nat>, ents: seq<Dirent>, e: nat)
    requires Partly(img, sb, plan, i, was, mid, bwas, bmid, ents, e) && e < |ents| && Child(img, sb, i, ents[e].inode)
    requires Marked(img, sb, plan, ents[e].inode, mid, now, bmid, bnow)
    ensures Partly(img, sb, plan, i, was, now, bwas, bnow, ents, e + 1)
  {
    hide InodeAt, Below, Child;
    forall j | j in now - was ensures Below(img, sb, i, j) && (j != i ==> Closed(img, sb, j, now)) {
      if j in mid {
        assert j in mid - was;
      } else {
        assert j in now - mid;
        BelowChild(img, sb, i, ents[e].inode, j);
      }
    }
    assert now - was == (mid - was) + (now - mid);
    BlocksOfMore(plan, mid - was, now - mid);
  }

  lemma {:induction false} WhollyMarked(img: Image, sb: Super, plan: Plan, i: nat, was: set<nat>, now: set<nat>, bwas: set<nat>,
                                        bnow: set<nat>, ents: seq<Dirent>)
    requires Partly(img, sb, plan, i, was, now, bwas, bnow, ents, DIR_NENTS)
    ensures Marked(img, sb, plan, i, was, now, bwas, bnow)
  {
    hide InodeAt, Below;
    forall c | Child(img, sb, i, c) ensures c in now {
    }
  }

  lemma {:induction false} FileMarked(img: Image, sb: Super, plan: Plan, i: nat, was: set<nat>, bwas: set<nat>)
    requires i in plan.chains && i !in was && !InodeAt(img, sb, i).dir
    ensures Marked(img, sb, plan, i, was, was + {i}, bwas, bwas + (set b | b in plan.chains[i]))
  {
    BelowSelf(img, sb, i);
    assert was + {i} - was == {i};
    BlocksOfOne(plan, i);
  }

  // -------------------------------------------------------- choosing a superblock

  /** A superblock whose checksum and magic agree. */
  predicate Checks(b: Block) {
    b.SuperBlock? && b.ok
  }

  /** "read the superblocks": the valid ones, in order. */
  function ValidSupers(img: Image): seq<Super> {
    (if Checks(Get(img, SuperNo(0))) then [Get(img, SuperNo(0)).sb] else [])
    + (if Checks(Get(img, SuperNo(1))) then [Get(img, SuperNo(1)).sb] else [])
  }

  /** "look for the best one": the place among them of the one with the highest
      version above 0, the first if there are several; -1 if there is none. */
  function BestOf(supers: seq<Super>): (r: int)
    ensures -1 <= r < |supers|
  {
    if supers == [] then -1
    else
      var last, r := |supers| - 1, BestOf(supers[..|supers| - 1]);
      if supers[last].ver > (if r < 0 then 0 else supers[r].ver) then last else r
  }

  /** The loops of crfs_init that choose a superblock. */
  method Choose(store: BlockStore) returns (which: int, sblocks: seq<Super>)
    requires store.Valid()
    modifies store`cache
    ensures store.Valid() && store.Dirty() == old(store.Dirty())
    ensures sblocks == ValidSupers(store.mem) && which == BestOf(sblocks)
  {
    sblocks := [];
    for i := 0 to 2
      invariant store.Valid() && store.Dirty() == old(store.Dirty())
      invariant i == 0 ==> sblocks == []
      invariant i == 1 ==> sblocks == if Checks(Get(store.mem, SuperNo(0))) then [Get(store.mem, SuperNo(0)).sb] else []
      invariant i == 2 ==> sblocks == ValidSupers(store.mem)
    {
      var b := store.Read(SuperNo(i));
      if Checks(b) {
        sblocks := sblocks + [b.sb];
      }
    }
    which := -1;
    var ver := 0;
    for i := 0 to |sblocks|
      invariant which == BestOf(sblocks[..i]) && ver == if which < 0 then 0 else sblocks[which].ver
    {
      assert sblocks[..i + 1][..i] == sblocks[..i];
      if sblocks[i].ver > ver {
        which, ver := i, sblocks[i].ver;
      }
    }
    assert sblocks[..|sblocks|] == sblocks;
  }

  /** The valid superblocks, case by case, and the best of so few. */
  lemma {:induction false} ValidFew(img: Image)
    ensures var a, b := Get(img, SuperNo(0)), Get(img, SuperNo(1));
      ValidSupers(img) == if Checks(a) && Checks(b) then [a.sb, b.sb]
                          else if Checks(a) then [a.sb] else if Checks(b) then [b.sb] else []
  {
  }

  lemma {:induction false} BestFew(a: Block, b: Block)
    ensures Checks(a) ==> BestOf([a.sb]) == if a.sb.ver > 0 then 0 else -1
    ensures Checks(b) ==> BestOf([b.sb]) == if b.sb.ver > 0 then 0 else -1
    ensures Checks(a) && Checks(b) ==>
      BestOf([a.sb, b.sb]) == if b.sb.ver > a.sb.ver then 1 else if a.sb.ver > 0 then 0 else -1
    ensures BestOf([]) == -1
  {
    if Checks(a) { assert [a.sb][..0] == []; }
    if Checks(b) { assert [b.sb][..0] == []; }
    if Checks(a) && Checks(b) { assert [a.sb, b.sb][..1] == [a.sb]; }
  }

  /** The choice finds the best superblock, if versions differ. */
  lemma {:induction false} ChoiceIsBest(img: Image, sb: Super)
    requires Chosen(img, sb)
    ensures var supers := ValidSupers(img); 0 <= BestOf(supers) < |supers| && supers[BestOf(supers)] == sb
  {
    var i: nat :| i < 2 && Good(Get(img, SuperNo(i))) && Get(img, SuperNo(i)).sb == sb
      && forall j: nat :: j < 2 && j != i && Good(Get(img, SuperNo(j))) ==> Get(img, SuperNo(j)).sb.ver < sb.ver;
    hide BestOf;
    ValidFew(img);
    BestFew(Get(img, SuperNo(0)), Get(img, SuperNo(1)));
  }

  /** But the place among the valid ones is taken for the superblock's number, which
      it is just when superblock 0 is valid, or none is worth choosing. */
  lemma {:induction false} WhichIffFirstValid(img: Image, which: nat, sb: Super)
    requires which < 2 && Good(Get(img, SuperNo(which))) && Get(img, SuperNo(which)).sb == sb
    requires Good(Get(img, SuperNo(1 - which))) ==> Get(img, SuperNo(1 - which)).sb.ver < sb.ver
    ensures BestOf(ValidSupers(img)) == which <==> Checks(Get(img, SuperNo(0)))
  {
    hide BestOf;
    ValidFew(img);
    BestFew(Get(img, SuperNo(0)), Get(img, SuperNo(1)));
  }

  /** No superblock is left to choose. */
  ghost predicate Unmountable(img: Image) {
    forall sb :: !Chosen(img, sb)
  }

  /** What follows when it is not: mounted from superblock 1, the file system
      believes it is 0, and the next flush writes over the only valid one. */
  lemma {:induction false} NextFlushUnsafe(img: Image, sb: Super, writes: seq<Write>, cplan: Plan, torn: Block)
    requires Phased(writes, 0, cplan) && !Good(torn)
    requires !Checks(Get(img, SuperNo(0))) && Get(img, SuperNo(1)) == SuperBlock(sb, true) && sb.ver > 0
    ensures Chosen(img, sb) && BestOf(ValidSupers(img)) == 0
    ensures writes[|writes| - 1].addr == SuperNo(1)
    ensures Unmountable(img[writes[|writes| - 1].addr := torn])
  {
    assert Good(Get(img, SuperNo(1)));
    assert ValidSupers(img)[..0] == [] && BestOf([]) == -1;
  }

  // ------------------------------------------------------------------- crfs_init

  ghost function TableBlocks(sb: Super): set<nat> {
    set b | b in sb.vtable && b != 0
  }

  ghost predicate IsReached(img: Image, sb: Super, plan: Plan, s: set<nat>) {
    forall i :: i in s <==> Reaches(img, sb, i)
  }

  /** The plan cut down to what is reached. */
  ghost function Restricted(plan: Plan, sb: Super, s: set<nat>): Plan {
    Plan(map i | i in plan.chains && i in s :: plan.chains[i],
         map b | b in plan.own && b in TableBlocks(sb) + BlocksOf(plan, s) :: plan.own[b])
  }

  /** Marking from the root finds what can be reached, and that only. */
  lemma {:induction false} MarkedReached(img: Image, sb: Super, plan: Plan, now: set<nat>, bwas: set<nat>, bnow: set<nat>)
    requires WellFormed(img, sb, plan) && Marked(img, sb, plan, sb.root, {0}, now, bwas, bnow) && sb.root != 0
    ensures IsReached(img, sb, plan, now - {0})
  {
    hide WellFormed, Child;
    var new_ := now - {0};
    forall i ensures i in new_ <==> Reaches(img, sb, i) {
      if i in new_ {
        assert Below(img, sb, sb.root, i);
        var path :| WayTo(img, sb, sb.root, path, i);
        assert Leads(img, sb, path, i);
      }
      if Reaches(img, sb, i) {
        var path :| Leads(img, sb, path, i);
        assert Way(img, sb, sb.root, path);
        StaysIn(img, sb, sb.root, path, |path| - 1, now, new_);
      }
    }
  }

  lemma {:induction false} RestrictedNode(img: Image, sb: Super, plan: Plan, s: set<nat>, i: nat)
    requires WellFormed(img, sb, plan) && IsReached(img, sb, plan, s) && i in s && i in plan.chains
    ensures i in Restricted(plan, sb, s).chains && NodeOk(img, Restricted(plan, sb, s), i, InodeAt(img, sb, i))
  {
    hide InodeAt, TablesOk;
    var inode, chain, plan' := InodeAt(img, sb, i), plan.chains[i], Restricted(plan, sb, s);
    assert NodeOk(img, plan, i, inode);
    forall p | 0 <= p < |chain| ensures chain[p] in plan'.own && plan'.own[chain[p]] == PartOf(i, p) {
      assert chain[p] in plan.chains[i];
      InBlocksOf(plan, s, i, chain[p]);
    }
    if inode.dir {
      forall e | 0 <= e < DIR_NENTS ensures EntryOk(plan'.chains, Get(img, chain[0]).ents[e]) {
        assert EntryOk(plan.chains, Get(img, chain[0]).ents[e]);
        var j := Get(img, chain[0]).ents[e].inode;
        if j != 0 {
          assert Entries(img, inode.first)[e].inode == j;
          assert Child(img, sb, i, j);
          ReachesChild(img, sb, i, j);
        }
      }
    }
  }

  lemma {:induction false} ReachesChild(img: Image, sb: Super, i: nat, j: nat)
    requires Reaches(img, sb, i) && Child(img, sb, i, j)
    ensures Reaches(img, sb, j)
  {
    hide Child;
    var path :| Leads(img, sb, path, i);
    var longer := path + [j];
    forall k | 0 <= k < |longer| - 1 ensures Child(img, sb, longer[k], longer[k + 1]) {
      if k < |path| - 1 { assert Child(img, sb, path[k], path[k + 1]); }
    }
    assert Leads(img, sb, longer, j);
  }

  /** The image is well formed with the plan cut down. */
  lemma {:induction false} RestrictedOk(img: Image, sb: Super, plan: Plan, s: set<nat>)
    requires WellFormed(img, sb, plan) && IsReached(img, sb, plan, s) && s <= plan.chains.Keys
    ensures WellFormed(img, sb, Restricted(plan, sb, s))
    ensures Restricted(plan, sb, s).chains.Keys == s
    ensures Restricted(plan, sb, s).own.Keys == TableBlocks(sb) + BlocksOf(plan, s)
  {
    hide InodeAt, NodeOk;
    var plan' := Restricted(plan, sb, s);
    RootReached(img, sb);
    forall k | 0 <= k < VTABLE_LEN ensures TableOk(img, sb, plan'.own, k) {
      assert TableOk(img, sb, plan.own, k);
      if sb.vtable[k] != 0 { assert sb.vtable[k] in TableBlocks(sb); }
    }
    forall i | i in plan'.chains ensures TableOf(sb, i) != 0 && NodeOk(img, plan', i, InodeAt(img, sb, i)) {
      RestrictedNode(img, sb, plan, s, i);
    }
    forall b | b in TableBlocks(sb) + BlocksOf(plan, s) ensures b in plan.own {
      OwnsAll(img, sb, plan, s, b);
    }
  }

  lemma {:induction false} OwnsAll(img: Image, sb: Super, plan: Plan, s: set<nat>, b: nat)
    requires WellFormed(img, sb, plan) && b in TableBlocks(sb) + BlocksOf(plan, s)
    ensures b in plan.own
  {
    hide InodeAt;
    if b in TableBlocks(sb) {
      var k :| 0 <= k < |sb.vtable| && sb.vtable[k] == b;
      assert TableOk(img, sb, plan.own, k);
    } else {
      var i :| i in s && i in plan.chains && b in plan.chains[i];
      assert NodeOk(img, plan, i, InodeAt(img, sb, i));
      var p :| 0 <= p < |plan.chains[i]| && plan.chains[i][p] == b;
    }
  }

  lemma {:induction false} RootReached(img: Image, sb: Super)
    ensures Reaches(img, sb, sb.root)
  {
    assert Leads(img, sb, [sb.root], sb.root);
  }

  /** Mark every number of a list but 0. */
  method MarkTables(blocks: Freemap, vtable: seq<nat>)
    requires blocks.Valid() && forall k :: 0 <= k < |vtable| ==> vtable[k] < 8 * |blocks.inUse|
    modifies blocks
    ensures blocks.Valid() && blocks.Freed() == old(blocks.Freed()) && |blocks.inUse| == |old(blocks.inUse)|
    ensures blocks.Used() == old(blocks.Used()) + (set b | b in vtable && b != 0)
  {
    hide *;
    for i := 0 to |vtable|
      invariant blocks.Valid() && blocks.Freed() == old(blocks.Freed()) && |blocks.inUse| == |old(blocks.inUse)|
      invariant blocks.Used() == old(blocks.Used()) + (set b | b in vtable[..i] && b != 0)
    {
      assert vtable[..i + 1] == vtable[..i] + [vtable[i]];
      if vtable[i] != 0 {
        blocks.Mark(vtable[i]);
      }
    }
    assert vtable[..|vtable|] == vtable;
  }

  lemma {:induction false} CommittedIs(disk: Image, which: nat, sb: Super, plan: Plan)
    requires Committed(disk, which, sb, plan)
    ensures which < 2 && Good(Get(disk, SuperNo(which))) && Get(disk, SuperNo(which)).sb == sb && WellFormed(disk, sb, plan)
    ensures Good(Get(disk, SuperNo(1 - which))) ==> Get(disk, SuperNo(1 - which)).sb.ver < sb.ver
  {
    hide WellFormed;
  }

  lemma {:induction false} FitsIs(img: Image, sb: Super, plan: Plan, size: nat)
    requires WellFormed(img, sb, plan) && Fits(plan, size, 8192)
    ensures SuperNo(0) == 0 && SuperNo(1) == 16 && SuperNo(1) < 8 * size && sb.root in plan.chains
    ensures forall k :: 0 <= k < |sb.vtable| ==> sb.vtable[k] < 8 * size
    ensures SUPERS == {0} + {16}
  {
    hide InodeAt, NodeOk;
    forall k | 0 <= k < |sb.vtable| ensures sb.vtable[k] < 8 * size {
      assert TableOk(img, sb, plan.own, k);
    }
  }

  lemma {:induction false} MarkedWithin(img: Image, sb: Super, plan: Plan, now: set<nat>, bwas: set<nat>, bnow: set<nat>)
    requires Marked(img, sb, plan, sb.root, {0}, now, bwas, bnow)
    ensures now - {0} <= plan.chains.Keys && 0 in now && bnow == bwas + BlocksOf(plan, now - {0})
  {
  }

  lemma {:induction false} StillCommitted(disk: Image, which: nat, sb: Super, plan: Plan, plan': Plan)
    requires Committed(disk, which, sb, plan) && WellFormed(disk, sb, plan')
    ensures Committed(disk, which, sb, plan')
  {
    hide WellFormed;
  }

  lemma {:induction false} SupersAre(bwas: set<nat>, sb: Super)
    requires bwas == {} + {0} + {16} + (set b | b in sb.vtable && b != 0)
    ensures bwas == SUPERS + TableBlocks(sb)
  {
  }

  lemma {:induction false} ReachedUsed(img: Image, sb: Super, plan: Plan, used: set<nat>)
    requires IsReached(img, sb, plan, used - {0}) && 0 in used
    ensures forall i :: i in used <==> i == 0 || Reaches(img, sb, i)
  {
    hide Reaches;
  }

  /** A superblock that does not check out is not the committed one. */
  lemma {:induction false} NotCommittedUnchecked(disk: Image, which: nat, best: nat, sb: Super, plan: Plan, plan': Plan)
    requires Committed(disk, best, sb, plan) && WellFormed(disk, sb, plan')
    requires which == best <==> Checks(Get(disk, SuperNo(0)))
    requires which == 0 || which == best
    ensures Committed(disk, which, sb, plan') <==> Checks(Get(disk, SuperNo(0)))
  {
    hide WellFormed;
  }

  lemma {:induction false} FirstOrBest(disk: Image, best: nat, sb: Super)
    requires best < 2 && Good(Get(disk, SuperNo(best))) && Get(disk, SuperNo(best)).sb == sb
    requires Good(Get(disk, SuperNo(1 - best))) ==> Get(disk, SuperNo(1 - best)).sb.ver < sb.ver
    ensures BestOf(ValidSupers(disk)) == 0 || BestOf(ValidSupers(disk)) == best
  {
    hide BestOf;
    ValidFew(disk);
    BestFew(Get(disk, SuperNo(0)), Get(disk, SuperNo(1)));
  }

  /** crfs_init, of any image with no superblock to choose or with a committed tree.
      Afterwards the inode map is inode 0 and what can be reached from the root; the
      block map is the superblocks, the inode tables and the blocks of those inodes;
      and the file system is a good start just when superblock 0 checks out. */
  method Mount(disk: Image, size: nat, ghost best: nat, ghost csb: Super, ghost plan: Plan) returns (fs: FileSystem?)
    requires BestOf(ValidSupers(disk)) >= 0 ==> Committed(disk, best, csb, plan) && Fits(plan, size, 8192) && csb.root != 0
    ensures fs == null <==> BestOf(ValidSupers(disk)) < 0
    ensures fs != null ==> fs.sb == csb == fs.csb && fs.store.disk == disk && fs.cplan == fs.plan
    ensures fs != null ==> (fs.which == best <==> Checks(Get(disk, SuperNo(0)))) && (fs.Valid() <==> Checks(Get(disk, SuperNo(0))))
    ensures fs != null ==> forall i :: i in fs.inodes.Used() <==> i == 0 || Reaches(disk, csb, i)
    ensures fs != null ==> fs.blocks.Used() == SUPERS + TableBlocks(csb) + BlocksOf(plan, fs.inodes.Used() - {0})
    ensures fs != null ==> fs.inodes.Freed() == {} && fs.blocks.Freed() == {}
  {
    hide *;
    fs := null;
    var store := new BlockStore(disk);
    var which, sblocks := Choose(store);
    if which >= 0 {
      CommittedIs(disk, best, csb, plan);
      CommittedChosen(disk, best, csb, plan);
      WhichIffFirstValid(disk, best, csb);
      FirstOrBest(disk, best, csb);
      ChoiceIsBest(disk, csb);
      fs := MountFrom(store, sblocks[which], which, size, plan);
      StillCommitted(disk, best, csb, plan, fs.plan);
      NotCommittedUnchecked(disk, which, best, csb, plan, fs.plan);
    }
  }

  /** The rest of crfs_init, with the superblock chosen. */
  method MountFrom(store: BlockStore, sb: Super, which: nat, size: nat, ghost plan: Plan) returns (fs: FileSystem)
    requires store.Valid() && store.Dirty() == {} && WellFormed(store.mem, sb, plan) && Fits(plan, size, 8192) && sb.root != 0
    modifies store`cache
    ensures fs.sb == sb == fs.csb && fs.store == store && fs.cplan == fs.plan && fs.which == which
    ensures WellFormed(store.mem, sb, fs.plan) && (fs.Valid() <==> Committed(store.disk, which, sb, fs.plan))
    ensures forall i :: i in fs.inodes.Used() <==> i == 0 || Reaches(store.mem, sb, i)
    ensures fs.blocks.Used() == SUPERS + TableBlocks(sb) + BlocksOf(plan, fs.inodes.Used() - {0})
    ensures fs.inodes.Freed() == {} && fs.blocks.Freed() == {}
  {
    hide *;
    ghost var mem := store.mem;
    var blocks := new Freemap(size);
    var inodes := new Freemap(8192);
    FitsIs(mem, sb, plan, size);
    inodes.Mark(0);
    blocks.Mark(SuperNo(0));
    blocks.Mark(SuperNo(1));
    MarkTables(blocks, sb.vtable);
    ghost var bwas := blocks.Used();
    MarkInode(store, sb, inodes, blocks, sb.root, plan);
    assert {} + {0} == {0};
    MarkedReached(mem, sb, plan, inodes.Used(), bwas, blocks.Used());
    MarkedWithin(mem, sb, plan, inodes.Used(), bwas, blocks.Used());
    RestrictedOk(mem, sb, plan, inodes.Used() - {0});
    ghost var plan' := Restricted(plan, sb, inodes.Used() - {0});
    SupersAre(bwas, sb);
    ReachedUsed(mem, sb, plan, inodes.Used());
    fs := new FileSystem(store, blocks, inodes, which, sb, plan');
  }

  /** A crash that tears the superblock being written, and then a mount: the tree is
      the one committed before, but its superblock's number is right only if the
      torn one was superblock 1. */
  lemma {:induction false} TornThenMounted(disk: Image, which: nat, csb: Super, cplan: Plan, writes: seq<Write>, torn: Block)
    requires Committed(disk, which, csb, cplan) && Phased(writes, which, cplan) && !Checks(torn)
    ensures var img := Applied(disk, writes[..|writes| - 1])[SuperNo(1 - which) := torn];
      && Committed(img, which, csb, cplan) && SameTree(disk, csb, img, csb)
      && ValidSupers(img) == [csb] && (BestOf(ValidSupers(img)) == which <==> which == 0)
  {
    hide WellFormed, SameTree, Applied, BestOf;
    CrashSafe(disk, which, csb, cplan, writes, |writes| - 1, torn);
    var img := Applied(disk, writes[..|writes| - 1])[SuperNo(1 - which) := torn];
    CommittedIs(img, which, csb, cplan);
    WhichIffFirstValid(img, which, csb);
  }
}
