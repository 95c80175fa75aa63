/** The write-back block cache, a list with the latest block first, over the
    backing store. */
module CrfsStore {
  import opened CrfsImage

  datatype Datum = Datum(addr: nat, dirty: bool, data: Block)

  /** One block written to the backing store. */
  datatype Write = Stored(addr: nat, data: Block)

  function Applied(disk: Image, writes: seq<Write>): Image
    decreases |writes|
  {
    if writes == [] then disk
    else
      var w := writes[|writes| - 1];
      Applied(disk, writes[..|writes| - 1])[w.addr := w.data]
  }

  lemma {:induction false} AppliedOne(disk: Image, writes: seq<Write>, w: Write)
    ensures Applied(disk, writes + [w]) == Applied(disk, writes)[w.addr := w.data]
  {
    assert (writes + [w])[..|writes|] == writes;
  }

  /** Blocks not written stay as they were. */
  lemma {:induction false} AppliedElse(disk: Image, writes: seq<Write>, b: nat)
    requires forall i :: 0 <= i < |writes| ==> writes[i].addr != b
    ensures Get(Applied(disk, writes), b) == Get(disk, b)
    decreases |writes|
  {
    if writes != [] {
      AppliedElse(disk, writes[..|writes| - 1], b);
    }
  }

  ghost predicate NoTwice(cache: seq<Datum>) {
    forall i, j :: 0 <= i < j < |cache| ==> cache[i].addr != cache[j].addr
  }

  ghost predicate Uncached(cache: seq<Datum>, b: nat) {
    forall i :: 0 <= i < |cache| ==> cache[i].addr != b
  }

  ghost predicate DatumOk(d: Datum, disk: Image, mem: Image) {
    Get(mem, d.addr) == d.data && (d.dirty || Get(disk, d.addr) == d.data)
  }

  /** mem is what reads see: the cache over the backing store. */
  ghost predicate Coherent(cache: seq<Datum>, disk: Image, mem: Image) {
    && NoTwice(cache) && (forall i :: 0 <= i < |cache| ==> DatumOk(cache[i], disk, mem))
    && forall b :: Uncached(cache, b) ==> Get(mem, b) == Get(disk, b)
  }

  ghost function DirtyIn(cache: seq<Datum>): set<nat> {
    set i | 0 <= i < |cache| && cache[i].dirty :: cache[i].addr
  }

  class BlockStore {
    var disk: Image
    var cache: seq<Datum>
    ghost var mem: Image

    ghost predicate Valid()
      reads this
    {
      Coherent(cache, disk, mem)
    }

    ghost function Dirty(): set<nat>
      reads this
    {
      DirtyIn(cache)
    }

    lemma {:induction false} CoherentIs()
      requires Valid()
      ensures Coherent(cache, disk, mem)
    {
    }

    lemma {:induction false} NoneDirty()
      requires cache == []
      ensures Dirty() == {}
    {
    }

    constructor (disk: Image)
      ensures Valid() && this.disk == disk && mem == disk && Dirty() == {}
    {
      this.disk, cache, mem := disk, [], disk;
    }

    /** The cache entry for a block, if it has one. */
    method Find(idx: nat) returns (i: nat)
      ensures i <= |cache| && (i < |cache| ==> cache[i].addr == idx) && (i == |cache| ==> Uncached(cache, idx))
    {
      i := 0;
      while i < |cache| && cache[i].addr != idx
        invariant i <= |cache| && forall j :: 0 <= j < i ==> cache[j].addr != idx
      {
        i := i + 1;
      }
    }

    /** crfs_read_block */
    method Read(idx: nat) returns (b: Block)
      requires Valid()
      modifies `cache
      ensures Valid() && b == Get(mem, idx) && Dirty() == old(Dirty()) && cache != []
    {
      var i := Find(idx);
      if i < |cache| {
        return cache[i].data;
      }
      b := Get(disk, idx);
      ghost var was := cache;
      cache := [Datum(idx, false, b)] + cache;
      AddCoherent(was, disk, mem, mem, Datum(idx, false, b));
    }

    /** crfs_write_block */
    method Write(idx: nat, data: Block)
      requires Valid()
      modifies `cache, `mem
      ensures Valid() && mem == old(mem)[idx := data] && Dirty() == old(Dirty()) + {idx} && cache != []
    {
      var i := Find(idx);
      ghost var was, m := cache, mem;
      mem := mem[idx := data];
      if i < |cache| {
        cache := cache[i := Datum(idx, true, data)];
        UpdateCoherent(was, disk, m, i, data);
      } else {
        cache := [Datum(idx, true, data)] + cache;
        AddCoherent(was, disk, m, mem, Datum(idx, true, data));
      }
    }

    /** block_is_dirty */
    method IsDirty(idx: nat) returns (dirty: bool)
      requires Valid()
      ensures dirty <==> idx in Dirty()
    {
      var i := Find(idx);
      dirty := i < |cache| && cache[i].dirty;
    }

    /** The loop of cache_flush: write what is dirty and drop every entry. */
    method WriteBack() returns (ghost writes: seq<Write>)
      requires Valid()
      modifies `disk, `cache
      ensures cache == [] && Valid() && disk == Applied(old(disk), writes)
      ensures forall i :: 0 <= i < |writes| ==> writes[i].addr in old(Dirty())
      ensures forall b :: Get(disk, b) == Get(mem, b)
    {
      ghost var was := cache;
      writes := [];
      while cache != []
        invariant Coherent(cache, disk, mem) && DirtyIn(cache) <= DirtyIn(was)
        invariant disk == Applied(old(disk), writes)
        invariant forall i :: 0 <= i < |writes| ==> writes[i].addr in DirtyIn(was)
        decreases |cache|
      {
        var head := cache[0];
        TailCoherent(cache, disk, mem);
        if head.dirty {
          assert head.addr in DirtyIn(cache);
          AppliedOne(old(disk), writes, Stored(head.addr, head.data));
          disk := disk[head.addr := head.data];
          writes := writes + [Stored(head.addr, head.data)];
        }
        cache := cache[1..];
      }
      forall b ensures Get(disk, b) == Get(mem, b) {
        assert Uncached(cache, b);
      }
    }

    /** write_block, past the cache, which is empty. */
    method WriteThrough(idx: nat, data: Block)
      requires Valid() && cache == []
      modifies `disk, `mem
      ensures Valid() && cache == [] && disk == old(disk)[idx := data] && mem == old(mem)[idx := data] && Dirty() == {}
    {
      disk := disk[idx := data];
      mem := mem[idx := data];
      forall b | Uncached(cache, b) ensures Get(mem, b) == Get(disk, b) {
        assert Uncached([], b);
      }
    }
  }

  lemma {:induction false} AddCoherent(cache: seq<Datum>, disk: Image, mem: Image, mem': Image, d: Datum)
    requires Coherent(cache, disk, mem) && Uncached(cache, d.addr) && DatumOk(d, disk, mem')
    requires mem' == if d.dirty then mem[d.addr := d.data] else mem
    ensures Coherent([d] + cache, disk, mem')
    ensures DirtyIn([d] + cache) == DirtyIn(cache) + (if d.dirty then {d.addr} else {})
  {
    AddDirty(cache, d);
    hide DirtyIn;
    var more := [d] + cache;
    forall i | 0 <= i < |more| ensures DatumOk(more[i], disk, mem') {
      if i > 0 { assert more[i] == cache[i - 1] && DatumOk(cache[i - 1], disk, mem); }
    }
    forall b | Uncached(more, b) ensures Get(mem', b) == Get(disk, b) {
      assert more[0].addr != b;
      assert forall i :: 0 <= i < |cache| ==> cache[i] == more[i + 1];
      assert Uncached(cache, b);
    }
  }

  lemma {:induction false} AddDirty(cache: seq<Datum>, d: Datum)
    ensures DirtyIn([d] + cache) == DirtyIn(cache) + (if d.dirty then {d.addr} else {})
  {
    var more := [d] + cache;
    forall x | x in DirtyIn(cache) ensures x in DirtyIn(more) {
      var i :| 0 <= i < |cache| && cache[i].dirty && cache[i].addr == x;
      assert more[i + 1].addr == x && more[i + 1].dirty;
    }
    if d.dirty { assert more[0].addr in DirtyIn(more); }
    forall x | x in DirtyIn(more) ensures x in DirtyIn(cache) || (d.dirty && x == d.addr) {
      var i :| 0 <= i < |more| && more[i].dirty && more[i].addr == x;
      if i > 0 { assert cache[i - 1].addr in DirtyIn(cache); }
    }
  }

  lemma {:induction false} UpdateCoherent(cache: seq<Datum>, disk: Image, mem: Image, i: nat, data: Block)
    requires Coherent(cache, disk, mem) && i < |cache|
    ensures var a := cache[i].addr; var cache' := cache[i := Datum(a, true, data)];
      Coherent(cache', disk, mem[a := data]) && DirtyIn(cache') == DirtyIn(cache) + {a}
  {
    var a := cache[i].addr;
    var cache', mem' := cache[i := Datum(a, true, data)], mem[a := data];
    forall j | 0 <= j < |cache'| ensures DatumOk(cache'[j], disk, mem') {
      assert DatumOk(cache[j], disk, mem);
    }
    forall b | Uncached(cache', b) ensures Get(mem', b) == Get(disk, b) {
      assert cache'[i].addr != b;
      assert forall j :: 0 <= j < |cache| ==> cache[j].addr == cache'[j].addr;
      assert Uncached(cache, b);
    }
    forall x | x in DirtyIn(cache) ensures x in DirtyIn(cache') {
      var j :| 0 <= j < |cache| && cache[j].dirty && cache[j].addr == x;
      assert cache'[j].addr == x && cache'[j].dirty;
    }
    assert cache'[i].addr in DirtyIn(cache');
  }

  /** The first entry written back, if it need be, and dropped. */
  lemma {:induction false} TailCoherent(cache: seq<Datum>, disk: Image, mem: Image)
    requires Coherent(cache, disk, mem) && cache != []
    ensures var d := cache[0]; Coherent(cache[1..], if d.dirty then disk[d.addr := d.data] else disk, mem)
    ensures DirtyIn(cache[1..]) <= DirtyIn(cache)
  {
    var d := cache[0];
    var disk' := if d.dirty then disk[d.addr := d.data] else disk;
    var rest := cache[1..];
    assert DatumOk(d, disk, mem);
    forall i | 0 <= i < |rest| ensures DatumOk(rest[i], disk', mem) {
      assert rest[i] == cache[i + 1] && DatumOk(cache[i + 1], disk, mem);
    }
    forall b | Uncached(rest, b) ensures Get(mem, b) == Get(disk', b) {
      if b != d.addr {
        forall i | 0 <= i < |cache| ensures cache[i].addr != b {
          if i > 0 { assert rest[i - 1].addr != b; }
        }
        assert Uncached(cache, b);
      }
    }
  }
}
