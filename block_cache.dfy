/**
 * The block cache of the device-cache crate: cache units holding one block
 * each with a dirty flag, and two caches of shared units, one evicting in
 * least-recently-used order and one in first-in first-out order. A unit is
 * shared through a reference count; a cached unit whose count is 1 is held
 * by the cache alone and may be evicted, which writes it back.
 */
module BlockCaches {
  import opened Wrappers
  import opened Bytes

  /** `BLOCK_SIZE`. */
  const BLOCK_SIZE: nat := 512

  function ZeroBlock(): (b: seq<Byte>)
    ensures |b| == BLOCK_SIZE
  {
    seq(BLOCK_SIZE, i => 0)
  }

  /** The contents of one block. */
  type Block = b: seq<Byte> | |b| == BLOCK_SIZE witness ZeroBlock()

  /** A block device: the blocks written so far, any other block reading as zeros. */
  class BlockDevice {
    var blocks: map<nat, Block>

    constructor ()
      ensures blocks == map[]
    {
      blocks := map[];
    }

    /** `read_block`. */
    function ReadBlock(id: nat): (r: Block)
      reads this
      ensures id in blocks ==> r == blocks[id]
    {
      if id in blocks then blocks[id] else ZeroBlock()
    }

    /** `write_block`. */
    method WriteBlock(id: nat, b: Block)
      modifies this
      ensures blocks == old(blocks)[id := b]
      ensures ReadBlock(id) == b
    {
      blocks := blocks[id := b];
    }
  }

  class BlockCacheUnit {
    const id: nat
    var data: Block
    var dirty: bool

    /** `new`: the block as the device holds it, clean. */
    constructor (blockId: nat, dev: BlockDevice)
      ensures id == blockId && data == dev.ReadBlock(blockId) && !dirty
    {
      id := blockId;
      data := dev.ReadBlock(blockId);
      dirty := false;
    }

    /** `sync`: a dirty unit is written back and becomes clean; a clean one leaves the device alone. */
    method Sync(dev: BlockDevice)
      modifies this, dev
      ensures !dirty && data == old(data)
      ensures old(dirty) ==> dev.blocks == old(dev.blocks)[id := data]
      ensures !old(dirty) ==> dev.blocks == old(dev.blocks)
    {
      if dirty {
        dirty := false;
        dev.WriteBlock(id, data);
      }
    }

    /** `set_dirty`. */
    method SetDirty()
      modifies this
      ensures dirty && data == old(data)
    {
      dirty := true;
    }

    /**
     * `write`: the closure, here one that stores `bytes` at `off`, gets the
     * block through `get_mut`, which marks the unit dirty. `get_mut`'s
     * assertion fails (`ok` false, the kernel panics and nothing changes)
     * when the bytes would run past the block.
     */
    method Write(off: nat, bytes: seq<Byte>) returns (ok: bool)
      modifies this
      ensures ok <==> off + |bytes| <= BLOCK_SIZE
      ensures !ok ==> data == old(data) && dirty == old(dirty)
      ensures ok ==> dirty
      ensures ok ==> data == old(data)[..off] + bytes + old(data)[off + |bytes|..]
      ensures ok ==> data[off..off + |bytes|] == bytes
    {
      if off + |bytes| > BLOCK_SIZE {
        return false;
      }
      SetDirty();
      data := data[..off] + bytes + data[off + |bytes|..];
      ok := true;
    }
  }

  /**
   * Bytes written into a unit reach the device on `sync`, and a unit loaded
   * afresh from the device reads them back.
   */
  method WriteSyncReload(u: BlockCacheUnit, dev: BlockDevice, off: nat, bytes: seq<Byte>) returns (v: BlockCacheUnit)
    requires off + |bytes| <= BLOCK_SIZE
    modifies u, dev
    ensures v.id == u.id && !u.dirty && !v.dirty
    ensures v.data[off..off + |bytes|] == bytes && v.data == u.data
  {
    var ok := u.Write(off, bytes);
    u.Sync(dev);
    v := new BlockCacheUnit(u.id, dev);
  }

  /**
   * A cached block: its id, its shared unit and the unit's reference count
   * (`Arc::strong_count`) while no `get_block` result is held, 1 meaning the
   * cache alone holds it.
   */
  datatype Entry = Entry(id: nat, unit: BlockCacheUnit, holders: nat)

  /** The units of the cached entries. */
  function Units(es: seq<Entry>): set<BlockCacheUnit>
  {
    set i | 0 <= i < |es| :: es[i].unit
  }

  /** The first entry for block `id`, as `iter().find` gives it. */
  function FindId(es: seq<Entry>, id: nat): (r: Option<nat>)
    ensures r.Some? ==> r.value < |es| && es[r.value].id == id && forall j :: 0 <= j < r.value ==> es[j].id != id
    ensures r.None? ==> forall j :: 0 <= j < |es| ==> es[j].id != id
  {
    if es == [] then None
    else if es[0].id == id then Some(0)
    else match FindId(es[1..], id)
      case None => None
      case Some(k) => Some(k + 1)
  }

  /** The first entry, from the front, held by the cache alone. */
  function FirstEvictable(es: seq<Entry>): (r: Option<nat>)
    ensures r.Some? ==> r.value < |es| && es[r.value].holders == 1 && forall j :: 0 <= j < r.value ==> es[j].holders != 1
    ensures r.None? ==> forall j :: 0 <= j < |es| ==> es[j].holders != 1
  {
    if es == [] then None
    else if es[0].holders == 1 then Some(0)
    else match FirstEvictable(es[1..])
      case None => None
      case Some(k) => Some(k + 1)
  }

  function Without(es: seq<Entry>, k: nat): (r: seq<Entry>)
    requires k < |es|
    ensures |r| == |es| - 1
    ensures forall j :: 0 <= j < |r| ==> r[j] == if j < k then es[j] else es[j + 1]
  {
    es[..k] + es[k + 1..]
  }

  /** Moving one entry to the back reorders the cache and changes nothing else. */
  lemma MoveToBackPermutes(es: seq<Entry>, k: nat)
    requires k < |es|
    ensures multiset(Without(es, k) + [es[k]]) == multiset(es)
  {
    assert es == es[..k] + [es[k]] + es[k + 1..];
  }

  predicate UniqueIds(es: seq<Entry>)
  {
    forall i, j :: 0 <= i < j < |es| ==> es[i].id != es[j].id
  }

  /** A sound cache: within its size, one entry per block, each unit the one for its block and held by the cache. */
  predicate Sound(es: seq<Entry>, maxSize: nat)
  {
    |es| <= maxSize && UniqueIds(es) &&
    forall i :: 0 <= i < |es| ==> es[i].unit.id == es[i].id && es[i].holders >= 1
  }

  /** Removing an entry and appending a new one for a block not left in the cache keeps it sound. */
  lemma SoundAfterReplace(es: seq<Entry>, maxSize: nat, rest: seq<Entry>, e: Entry)
    requires UniqueIds(rest) && |rest| < maxSize && e.unit.id == e.id && e.holders >= 1
    requires forall j :: 0 <= j < |rest| ==> rest[j].id != e.id && rest[j].unit.id == rest[j].id && rest[j].holders >= 1
    ensures Sound(rest + [e], maxSize)
  {
  }

  lemma WithoutKeeps(es: seq<Entry>, k: nat)
    requires k < |es| && UniqueIds(es)
    ensures UniqueIds(Without(es, k))
    ensures forall j :: 0 <= j < |Without(es, k)| ==> Without(es, k)[j].id != es[k].id
    ensures forall j :: 0 <= j < |Without(es, k)| ==> Without(es, k)[j] in es
  {
    var r := Without(es, k);
    forall j | 0 <= j < |r|
      ensures r[j] in es
    {
      var src := if j < k then j else j + 1;
      assert r[j] == es[src];
    }
  }

  /** What `get_block` did: handed out a unit, or found every cached unit in use and panicked. */
  datatype Got = Unit(unit: BlockCacheUnit) | RunOut

  class LRUBlockCache {
    const maxSize: nat
    var inner: seq<Entry>

    /** `new`: an empty cache of the given size. */
    constructor (size: nat)
      ensures maxSize == size && inner == []
    {
      maxSize := size;
      inner := [];
    }

    /** `capacity`. */
    function Capacity(): nat
    {
      maxSize
    }

    /**
     * `get_block`: a cached block moves to the back and its unit is handed
     * out; otherwise, with the cache full, the front-most unit held by the
     * cache alone is dropped (and so written back), or none is and the
     * kernel panics; then the block is loaded and appended.
     */
    method GetBlock(blockId: nat, dev: BlockDevice) returns (r: Got)
      requires Sound(inner, maxSize)
      modifies this, dev, Units(inner)
      ensures FindId(old(inner), blockId).Some? ==>
        (var k := FindId(old(inner), blockId).value;
         inner == Without(old(inner), k) + [old(inner)[k]] && r == Unit(old(inner)[k].unit) &&
         dev.blocks == old(dev.blocks))
      ensures FindId(old(inner), blockId).None? && |old(inner)| == maxSize && FirstEvictable(old(inner)).None? ==>
        r == RunOut
      ensures FindId(old(inner), blockId).None? && |old(inner)| < maxSize ==>
        (r.Unit? && fresh(r.unit) && inner == old(inner) + [Entry(blockId, r.unit, 1)] &&
         dev.blocks == old(dev.blocks) && r.unit.data == dev.ReadBlock(blockId) && !r.unit.dirty)
      ensures FindId(old(inner), blockId).None? && |old(inner)| == maxSize && FirstEvictable(old(inner)).Some? ==>
        (var k := FirstEvictable(old(inner)).value;
         var victim := old(inner)[k].unit;
         r.Unit? && fresh(r.unit) && inner == Without(old(inner), k) + [Entry(blockId, r.unit, 1)] &&
         !victim.dirty &&
         (old(victim.dirty) ==> dev.blocks == old(dev.blocks)[victim.id := old(victim.data)]) &&
         (!old(victim.dirty) ==> dev.blocks == old(dev.blocks)) &&
         r.unit.data == dev.ReadBlock(blockId))
      ensures r.Unit? ==> Sound(inner, maxSize) && inner[|inner| - 1].id == blockId && inner[|inner| - 1].unit == r.unit
      ensures r.Unit? ==> forall b :: b != blockId ==> (FindId(inner, b).Some? ==> FindId(old(inner), b).Some?)
    {
      var found := FindId(inner, blockId);
      if found.Some? {
        var k := found.value;
        var e := inner[k];
        WithoutKeeps(inner, k);
        inner := Without(inner, k) + [e];
        SoundAfterReplace(old(inner), maxSize, Without(old(inner), k), e);
        KeptOnly(old(inner), Without(old(inner), k), e);
        return Unit(e.unit);
      }
      var rest := inner;
      if |inner| == maxSize {
        var victim := FirstEvictable(inner);
        if victim.None? {
          return RunOut;
        }
        var k := victim.value;
        WithoutKeeps(inner, k);
        inner[k].unit.Sync(dev);
        rest := Without(inner, k);
      }
      var unit := new BlockCacheUnit(blockId, dev);
      inner := rest + [Entry(blockId, unit, 1)];
      SoundAfterReplace(old(inner), maxSize, rest, Entry(blockId, unit, 1));
      KeptOnly(old(inner), rest, Entry(blockId, unit, 1));
      r := Unit(unit);
    }

    /** `sync_all`: every cached unit is written back if dirty, in list order. */
    method SyncAll(dev: BlockDevice)
      requires Sound(inner, maxSize)
      modifies dev, Units(inner)
      ensures forall i :: 0 <= i < |inner| ==> !inner[i].unit.dirty && inner[i].unit.data == old(inner[i].unit.data)
      ensures dev.blocks == WriteBack(old(dev.blocks), old(Snapshot(inner)))
    {
      SyncEach(inner, dev);
    }
  }

  /** After `get_block` the cache holds only blocks it held before and the requested one. */
  lemma KeptOnly(es: seq<Entry>, rest: seq<Entry>, e: Entry)
    requires forall j :: 0 <= j < |rest| ==> rest[j] in es
    ensures forall b :: b != e.id ==> (FindId(rest + [e], b).Some? ==> FindId(es, b).Some?)
  {
    forall b | b != e.id && FindId(rest + [e], b).Some?
      ensures FindId(es, b).Some?
    {
      var k := FindId(rest + [e], b).value;
      assert (rest + [e])[k] in es;
    }
  }

  /** The id, contents and dirty flag of each cached unit. */
  function Snapshot(es: seq<Entry>): (r: seq<(nat, Block, bool)>)
    reads Units(es)
    ensures |r| == |es|
    ensures forall i :: 0 <= i < |es| ==> r[i] == (es[i].id, es[i].unit.data, es[i].unit.dirty)
  {
    if es == [] then [] else [(es[0].id, es[0].unit.data, es[0].unit.dirty)] + Snapshot(es[1..])
  }

  /** The device after writing back, in order, each dirty unit of a snapshot. */
  function WriteBack(blocks: map<nat, Block>, snap: seq<(nat, Block, bool)>): (r: map<nat, Block>)
    ensures forall b :: b in blocks ==> b in r
    ensures forall b :: (forall i :: 0 <= i < |snap| ==> snap[i].0 != b || !snap[i].2) ==>
      (b in r <==> b in blocks) && (b in r ==> r[b] == blocks[b])
    decreases |snap|
  {
    if snap == [] then blocks
    else
      var last := snap[|snap| - 1];
      var before := WriteBack(blocks, snap[..|snap| - 1]);
      if last.2 then before[last.0 := last.1] else before
  }

  /** Syncs each unit of `es` in turn. */
  method SyncEach(es: seq<Entry>, dev: BlockDevice)
    requires UniqueIds(es) && forall i :: 0 <= i < |es| ==> es[i].unit.id == es[i].id
    modifies dev, Units(es)
    ensures forall i :: 0 <= i < |es| ==> !es[i].unit.dirty && es[i].unit.data == old(es[i].unit.data)
    ensures dev.blocks == WriteBack(old(dev.blocks), old(Snapshot(es)))
  {
    ghost var snap := Snapshot(es);
    for i := 0 to |es|
      invariant forall j :: 0 <= j < i ==> !es[j].unit.dirty
      invariant forall j :: 0 <= j < |es| ==> es[j].unit.data == old(es[j].unit.data)
      invariant forall j :: i <= j < |es| ==> es[j].unit.dirty == old(es[j].unit.dirty)
      invariant dev.blocks == WriteBack(old(dev.blocks), snap[..i])
    {
      assert snap[..i + 1][..i] == snap[..i];
      forall j | 0 <= j < |es| && j != i
        ensures es[j].unit != es[i].unit
      {
        assert es[j].unit.id != es[i].unit.id;
      }
      es[i].unit.Sync(dev);
    }
    assert snap[..|es|] == snap;
  }

  class FIFOBlockCache {
    const maxSize: nat
    var inner: seq<Entry>

    /** `new`: an empty cache of the given size. */
    constructor (size: nat)
      ensures maxSize == size && inner == []
    {
      maxSize := size;
      inner := [];
    }

    /** `capacity`. */
    function Capacity(): nat
    {
      maxSize
    }

    /**
     * `get_block`: a cached block's unit is handed out where it stands;
     * otherwise, with the cache full, the first unit held by the cache
     * alone is dropped (and so written back), or none is and the kernel
     * panics; then the block is loaded and appended.
     */
    method GetBlock(blockId: nat, dev: BlockDevice) returns (r: Got)
      requires Sound(inner, maxSize)
      modifies this, dev, Units(inner)
      ensures FindId(old(inner), blockId).Some? ==>
        (inner == old(inner) && r == Unit(old(inner)[FindId(old(inner), blockId).value].unit) &&
         dev.blocks == old(dev.blocks))
      ensures FindId(old(inner), blockId).None? && |old(inner)| == maxSize && FirstEvictable(old(inner)).None? ==>
        r == RunOut
      ensures FindId(old(inner), blockId).None? && |old(inner)| < maxSize ==>
        (r.Unit? && fresh(r.unit) && inner == old(inner) + [Entry(blockId, r.unit, 1)] &&
         dev.blocks == old(dev.blocks) && r.unit.data == dev.ReadBlock(blockId) && !r.unit.dirty)
      ensures FindId(old(inner), blockId).None? && |old(inner)| == maxSize && FirstEvictable(old(inner)).Some? ==>
        (var k := FirstEvictable(old(inner)).value;
         var victim := old(inner)[k].unit;
         r.Unit? && fresh(r.unit) && inner == Without(old(inner), k) + [Entry(blockId, r.unit, 1)] &&
         !victim.dirty &&
         (old(victim.dirty) ==> dev.blocks == old(dev.blocks)[victim.id := old(victim.data)]) &&
         (!old(victim.dirty) ==> dev.blocks == old(dev.blocks)) &&
         r.unit.data == dev.ReadBlock(blockId))
      ensures r.Unit? ==> Sound(inner, maxSize) && r.unit.id == blockId
    {
      var found := FindId(inner, blockId);
      if found.Some? {
        return Unit(inner[found.value].unit);
      }
      var rest := inner;
      if |inner| == maxSize {
        var victim := FirstEvictable(inner);
        if victim.None? {
          return RunOut;
        }
        var k := victim.value;
        WithoutKeeps(inner, k);
        inner[k].unit.Sync(dev);
        rest := Without(inner, k);
      }
      var unit := new BlockCacheUnit(blockId, dev);
      inner := rest + [Entry(blockId, unit, 1)];
      SoundAfterReplace(old(inner), maxSize, rest, Entry(blockId, unit, 1));
      r := Unit(unit);
    }

    /** `sync_all`: every cached unit is written back if dirty, in list order. */
    method SyncAll(dev: BlockDevice)
      requires Sound(inner, maxSize)
      modifies dev, Units(inner)
      ensures forall i :: 0 <= i < |inner| ==> !inner[i].unit.dirty && inner[i].unit.data == old(inner[i].unit.data)
      ensures dev.blocks == WriteBack(old(dev.blocks), old(Snapshot(inner)))
    {
      SyncEach(inner, dev);
    }
  }

  /**
   * An LRU cache of two blocks that has served blocks 1 then 2 evicts block
   * 1 for block 3 when both are idle, but block 2 if block 1 was used again
   * in between.
   */
  method LruEvictsLeastRecent(dev: BlockDevice) returns (ids: seq<nat>)
    modifies dev
    ensures ids == [1, 3]
  {
    var c := LruReused(dev);
    var d := c.GetBlock(3, dev);
    ids := [c.inner[0].id, c.inner[1].id];
  }

  /** Blocks 1 and 2 loaded into an LRU cache of two, then block 1 used again: block 2 is now the least recent. */
  method LruReused(dev: BlockDevice) returns (c: LRUBlockCache)
    modifies dev
    ensures fresh(c) && c.maxSize == 2 && Sound(c.inner, 2) && |c.inner| == 2
    ensures c.inner[0].id == 2 && c.inner[1].id == 1 && c.inner[0].holders == 1
    ensures forall u :: u in Units(c.inner) ==> fresh(u)
  {
    c := new LRUBlockCache(2);
    var a := c.GetBlock(1, dev);
    var b := c.GetBlock(2, dev);
    assert c.inner[0].id == 1 && c.inner[1].id == 2;
    var a2 := c.GetBlock(1, dev);
  }

  /** The FIFO cache, given the same requests, evicts block 1, the first loaded. */
  method FifoEvictsOldest(dev: BlockDevice) returns (ids: seq<nat>)
    modifies dev
    ensures ids == [2, 3]
  {
    var c := new FIFOBlockCache(2);
    var a := c.GetBlock(1, dev);
    var b := c.GetBlock(2, dev);
    assert c.inner[0].id == 1 && c.inner[1].id == 2;
    var a2 := c.GetBlock(1, dev);
    assert c.inner[0].id == 1 && c.inner[1].id == 2 && |c.inner| == 2;
    var d := c.GetBlock(3, dev);
    ids := [c.inner[0].id, c.inner[1].id];
  }
}
