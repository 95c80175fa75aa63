/** An image of the file system: blocks by number, what makes a superblock's tree
    well formed in it, and the tree itself. */
module CrfsImage {

  const VTABLE_LEN: nat := 16
  const ITABLE_NINODES: nat := 256
  const DIR_NENTS: nat := 64

  /** crfs_inode; dir is the directory bit of its mask. */
  datatype Inode = Inode(num: nat, first: nat, last: nat, size: nat, dir: bool)

  const NO_INODE: Inode := Inode(0, 0, 0, 0, false)

  datatype Dirent = Dirent(inode: nat, name: string)

  datatype Super = Super(ver: nat, root: nat, vtable: seq<nat>)

  /** A block by what it holds; ok says that a superblock's checksum agrees. */
  datatype Block =
    | Blank
    | SuperBlock(sb: Super, ok: bool)
    | ITable(inodes: seq<Inode>)
    | Directory(ents: seq<Dirent>)
    | Piece(prev: nat, next: nat, offset: nat, data: seq<int>)

  type Image = map<nat, Block>

  function Get(img: Image, b: nat): Block {
    if b in img then img[b] else Blank
  }

  /** ITABLE_BLOCKNUM */
  function TableOf(sb: Super, i: nat): nat {
    if i / ITABLE_NINODES < |sb.vtable| then sb.vtable[i / ITABLE_NINODES] else 0
  }

  /** crfs_lookup_inode */
  function InodeAt(img: Image, sb: Super, i: nat): Inode {
    match Get(img, TableOf(sb, i))
    case ITable(inodes) => if i % ITABLE_NINODES < |inodes| then inodes[i % ITABLE_NINODES] else NO_INODE
    case _ => NO_INODE
  }

  function Entries(img: Image, b: nat): seq<Dirent> {
    match Get(img, b)
    case Directory(ents) => ents
    case _ => []
  }

  // ------------------------------------------------------------- the tree

  /** Inode j has an entry in directory i. */
  ghost predicate Child(img: Image, sb: Super, i: nat, j: nat) {
    && j != 0 && InodeAt(img, sb, i).dir
    && exists e :: 0 <= e < |Entries(img, InodeAt(img, sb, i).first)| && Entries(img, InodeAt(img, sb, i).first)[e].inode == j
  }

  /** A way down from the root. */
  ghost predicate Path(img: Image, sb: Super, path: seq<nat>) {
    |path| > 0 && path[0] == sb.root && forall k :: 0 <= k < |path| - 1 ==> Child(img, sb, path[k], path[k + 1])
  }

  ghost predicate Leads(img: Image, sb: Super, path: seq<nat>, i: nat) {
    Path(img, sb, path) && path[|path| - 1] == i
  }

  ghost predicate Reaches(img: Image, sb: Super, i: nat) {
    exists path :: Leads(img, sb, path, i)
  }

  datatype Node = DirNode(ents: seq<Dirent>) | FileNode(size: nat, data: seq<seq<int>>)

  /** The data of a file's pieces, at most n of them. */
  function Pieces(img: Image, b: nat, n: nat): seq<seq<int>>
    decreases n
  {
    if b == 0 || n == 0 then []
    else
      match Get(img, b)
      case Piece(prev, next, offset, data) => [data] + Pieces(img, next, n - 1)
      case _ => []
  }

  function NodeAt(img: Image, sb: Super, i: nat): Node {
    var inode := InodeAt(img, sb, i);
    if inode.dir then DirNode(Entries(img, inode.first)) else FileNode(inode.size, Pieces(img, inode.first, 0x10000))
  }

  /** The two images show the same tree. */
  ghost predicate SameTree(img: Image, sb: Super, img': Image, sb': Super) {
    && sb'.root == sb.root
    && (forall i :: Reaches(img, sb, i) <==> Reaches(img', sb', i))
    && forall i :: Reaches(img, sb, i) ==> NodeAt(img', sb', i) == NodeAt(img, sb, i)
  }

  // ----------------------------------------------------------- well-formedness

  /** What a block is for: one inode table, or one place in one inode's chain. */
  datatype Owner = TableNo(k: nat) | PartOf(i: nat, p: nat)

  /** The layout of a tree: the chain of blocks of each inode in use, and what
      each block in use is for. That it is for one thing only keeps chains and
      tables apart. */
  datatype Plan = Plan(chains: map<nat, seq<nat>>, own: map<nat, Owner>)

  ghost predicate TableOk(img: Image, sb: Super, own: map<nat, Owner>, k: nat)
    requires k < |sb.vtable|
  {
    var b := sb.vtable[k];
    b != 0 ==> b in own && own[b] == TableNo(k) && Get(img, b).ITable? && |Get(img, b).inodes| == ITABLE_NINODES
  }

  ghost predicate TablesOk(img: Image, sb: Super, own: map<nat, Owner>) {
    |sb.vtable| == VTABLE_LEN && forall k :: 0 <= k < VTABLE_LEN ==> TableOk(img, sb, own, k)
  }

  ghost predicate Owned(own: map<nat, Owner>, i: nat, chain: seq<nat>) {
    forall p :: 0 <= p < |chain| ==> chain[p] in own && own[chain[p]] == PartOf(i, p)
  }

  /** A directory's block, with all its entries in use. */
  ghost predicate DirOk(img: Image, chains: map<nat, seq<nat>>, chain: seq<nat>) {
    && |chain| == 1 && Get(img, chain[0]).Directory? && |Get(img, chain[0]).ents| == DIR_NENTS
    && forall e :: 0 <= e < DIR_NENTS ==> EntryOk(chains, Get(img, chain[0]).ents[e])
  }

  ghost predicate EntryOk(chains: map<nat, seq<nat>>, e: Dirent) {
    e.inode == 0 || e.inode in chains
  }

  /** A file's blocks, each leading to the next. */
  ghost predicate FileOk(img: Image, chain: seq<nat>) {
    |chain| <= 0x10000 && forall p :: 0 <= p < |chain| ==> LinkOk(img, chain, p)
  }

  ghost predicate LinkOk(img: Image, chain: seq<nat>, p: nat)
    requires p < |chain|
  {
    Get(img, chain[p]).Piece? && Get(img, chain[p]).next == if p + 1 < |chain| then chain[p + 1] else 0
  }

  ghost predicate EndsOk(inode: Inode, chain: seq<nat>) {
    inode.first == (if chain == [] then 0 else chain[0]) && inode.last == if chain == [] then 0 else chain[|chain| - 1]
  }

  ghost predicate NodeOk(img: Image, plan: Plan, i: nat, inode: Inode)
    requires i in plan.chains
  {
    var chain := plan.chains[i];
    && 0 < i < VTABLE_LEN * ITABLE_NINODES && inode.num == i && EndsOk(inode, chain) && Owned(plan.own, i, chain)
    && if inode.dir then DirOk(img, plan.chains, chain) else FileOk(img, chain)
  }

  ghost predicate NodesOk(img: Image, sb: Super, plan: Plan) {
    forall i :: i in plan.chains ==> TableOf(sb, i) != 0 && NodeOk(img, plan, i, InodeAt(img, sb, i))
  }

  ghost predicate WellFormed(img: Image, sb: Super, plan: Plan) {
    && TablesOk(img, sb, plan.own) && sb.root in plan.chains && NodesOk(img, sb, plan)
    && 0 !in plan.own && 16 !in plan.own
  }

  // -------------------------------------- the tree depends on the plan's blocks only

  ghost predicate Agrees(img: Image, img': Image, own: map<nat, Owner>) {
    forall b :: b in own ==> Get(img', b) == Get(img, b)
  }

  lemma {:induction false} SameInode(img: Image, img': Image, sb: Super, plan: Plan, i: nat)
    requires TablesOk(img, sb, plan.own) && Agrees(img, img', plan.own) && TableOf(sb, i) != 0
    ensures InodeAt(img', sb, i) == InodeAt(img, sb, i) && TableOf(sb, i) in plan.own
  {
    assert TableOk(img, sb, plan.own, i / ITABLE_NINODES);
  }

  lemma {:induction false} StillNode(img: Image, img': Image, plan: Plan, i: nat, inode: Inode)
    requires i in plan.chains && NodeOk(img, plan, i, inode) && Agrees(img, img', plan.own)
    ensures NodeOk(img', plan, i, inode)
  {
    var chain := plan.chains[i];
    if !inode.dir {
      forall p | 0 <= p < |chain| ensures LinkOk(img', chain, p) {
        assert LinkOk(img, chain, p);
      }
    }
  }

  /** An image that agrees on the plan's blocks is as well formed. */
  lemma {:induction false} StillWellFormed(img: Image, img': Image, sb: Super, plan: Plan)
    requires WellFormed(img, sb, plan) && Agrees(img, img', plan.own)
    ensures WellFormed(img', sb, plan)
  {
    hide InodeAt, NodeOk;
    forall k | 0 <= k < VTABLE_LEN ensures TableOk(img', sb, plan.own, k) {
      assert TableOk(img, sb, plan.own, k);
    }
    forall i | i in plan.chains ensures TableOf(sb, i) != 0 && NodeOk(img', plan, i, InodeAt(img', sb, i)) {
      SameInode(img, img', sb, plan, i);
      StillNode(img, img', plan, i, InodeAt(img, sb, i));
    }
  }

  /** Children of an inode in use are in use. */
  lemma {:induction false} ChildInUse(img: Image, sb: Super, plan: Plan, i: nat, j: nat)
    requires WellFormed(img, sb, plan) && i in plan.chains && Child(img, sb, i, j)
    ensures j in plan.chains
  {
    var inode := InodeAt(img, sb, i);
    assert NodeOk(img, plan, i, inode);
    var e :| 0 <= e < |Entries(img, inode.first)| && Entries(img, inode.first)[e].inode == j;
    assert EntryOk(plan.chains, Entries(img, inode.first)[e]);
  }

  lemma {:induction false} PathInUse(img: Image, sb: Super, plan: Plan, path: seq<nat>, k: nat)
    requires WellFormed(img, sb, plan) && Path(img, sb, path) && k < |path|
    ensures path[k] in plan.chains
    decreases k
  {
    hide WellFormed, Child;
    if k == 0 {
      RootInUse(img, sb, plan);
    } else {
      PathInUse(img, sb, plan, path, k - 1);
      assert Child(img, sb, path[k - 1], path[k - 1 + 1]);
      ChildInUse(img, sb, plan, path[k - 1], path[k]);
    }
  }

  lemma {:induction false} RootInUse(img: Image, sb: Super, plan: Plan)
    requires WellFormed(img, sb, plan)
    ensures sb.root in plan.chains
  {
  }

  lemma {:induction false} ReachedInUse(img: Image, sb: Super, plan: Plan, i: nat)
    requires WellFormed(img, sb, plan) && Reaches(img, sb, i)
    ensures i in plan.chains
  {
    hide WellFormed, Child;
    var path :| Leads(img, sb, path, i);
    PathInUse(img, sb, plan, path, |path| - 1);
  }

  lemma {:induction false} SameChild(img: Image, img': Image, sb: Super, plan: Plan, i: nat, j: nat)
    requires WellFormed(img, sb, plan) && Agrees(img, img', plan.own) && i in plan.chains
    ensures Child(img, sb, i, j) <==> Child(img', sb, i, j)
  {
    hide InodeAt, TablesOk;
    SameInode(img, img', sb, plan, i);
    var inode := InodeAt(img, sb, i);
    assert NodeOk(img, plan, i, inode);
    if inode.dir {
      assert plan.chains[i][0] in plan.own;
      assert Entries(img', inode.first) == Entries(img, inode.first);
    }
  }

  lemma {:induction false} SamePath(img: Image, img': Image, sb: Super, plan: Plan, path: seq<nat>)
    requires WellFormed(img, sb, plan) && Agrees(img, img', plan.own) && Path(img, sb, path)
    ensures Path(img', sb, path)
  {
    hide WellFormed, Child, Agrees;
    forall k | 0 <= k < |path| - 1 ensures Child(img', sb, path[k], path[k + 1]) {
      PathInUse(img, sb, plan, path, k);
      SameChild(img, img', sb, plan, path[k], path[k + 1]);
    }
  }

  lemma {:induction false} SamePieces(img: Image, img': Image, own: map<nat, Owner>, chain: seq<nat>, p: nat, n: nat)
    requires FileOk(img, chain) && Agrees(img, img', own) && p <= |chain| && forall q :: 0 <= q < |chain| ==> chain[q] in own
    ensures var b := if p < |chain| then chain[p] else 0; Pieces(img', b, n) == Pieces(img, b, n)
    decreases n
  {
    if n > 0 && p < |chain| {
      assert LinkOk(img, chain, p);
      SamePieces(img, img', own, chain, p + 1, n - 1);
    }
  }

  lemma {:induction false} SameNode(img: Image, img': Image, sb: Super, plan: Plan, i: nat)
    requires WellFormed(img, sb, plan) && Agrees(img, img', plan.own) && i in plan.chains
    ensures NodeAt(img', sb, i) == NodeAt(img, sb, i)
  {
    hide InodeAt, TablesOk, Pieces;
    SameInode(img, img', sb, plan, i);
    var chain := plan.chains[i];
    assert NodeOk(img, plan, i, InodeAt(img, sb, i));
    if !InodeAt(img, sb, i).dir {
      SamePieces(img, img', plan.own, chain, 0, 0x10000);
    }
  }

  /** The tree of a well-formed image is determined by the blocks of its plan. */
  lemma {:induction false} TreeKept(img: Image, img': Image, sb: Super, plan: Plan)
    requires WellFormed(img, sb, plan) && Agrees(img, img', plan.own)
    ensures WellFormed(img', sb, plan) && SameTree(img, sb, img', sb)
  {
    hide WellFormed, NodeAt, Child;
    StillWellFormed(img, img', sb, plan);
    AgreesBack(img, img', plan.own);
    forall i ensures Reaches(img, sb, i) <==> Reaches(img', sb, i) {
      if Reaches(img, sb, i) {
        var path :| Leads(img, sb, path, i);
        SamePath(img, img', sb, plan, path);
        assert Leads(img', sb, path, i);
      }
      if Reaches(img', sb, i) {
        var path :| Leads(img', sb, path, i);
        SamePath(img', img, sb, plan, path);
        assert Leads(img, sb, path, i);
      }
    }
    forall i | Reaches(img, sb, i) ensures NodeAt(img', sb, i) == NodeAt(img, sb, i) {
      ReachedInUse(img, sb, plan, i);
      SameNode(img, img', sb, plan, i);
    }
  }

  lemma {:induction false} AgreesBack(img: Image, img': Image, own: map<nat, Owner>)
    requires Agrees(img, img', own)
    ensures Agrees(img', img, own)
  {
  }
}
