/**
 * The block cache of easy-fs: an in-memory copy of one 512-byte block with
 * a dirty flag, and a manager holding at most 16 of them in a queue. A
 * lookup reuses a cached block, appends a new one, or, when the queue is
 * full, evicts the oldest entry nobody else holds (writing it back first).
 */
module BlockCache {
  import opened Wrappers
  import opened Words
  import opened EfsBlock

  /** What `write_block` leaves on the device; blocks past its end are not part of this model. */
  function WriteBlock(blocks: seq<Block>, id: nat, b: Block): (r: seq<Block>)
    ensures |r| == |blocks|
    ensures forall j :: 0 <= j < |r| ==> r[j] == (if j == id then b else blocks[j])
  {
    if id < |blocks| then blocks[id := b] else blocks
  }

  /** `b` with `bytes` written from `offset` on. */
  function Patch(b: seq<u8>, offset: nat, bytes: seq<u8>): (r: seq<u8>)
    requires offset + |bytes| <= |b|
  {
    b[..offset] + bytes + b[offset + |bytes|..]
  }

  /** A patch puts its bytes at `offset` and keeps every other byte. */
  lemma PatchBytes(b: seq<u8>, offset: nat, bytes: seq<u8>)
    requires offset + |bytes| <= |b|
    ensures |Patch(b, offset, bytes)| == |b|
    ensures Patch(b, offset, bytes)[offset..offset + |bytes|] == bytes
    ensures forall i :: 0 <= i < |b| && !(offset <= i < offset + |bytes|) ==> Patch(b, offset, bytes)[i] == b[i]
  {
    var r := Patch(b, offset, bytes);
    assert r[offset..offset + |bytes|] == bytes;
  }

  /** One cached block: its bytes, its id, the device it came from and whether it was written to. */
  class BlockCache {
    const cache: array<u8>
    const blockId: nat
    const device: Disk
    var modified: bool

    predicate Valid() {
      cache.Length == BLOCK_SZ
    }

    /** The cached bytes as a block. */
    function Contents(): (b: Block)
      requires Valid()
      reads cache
      ensures b == cache[..]
    {
      cache[..]
    }

    /** BlockCache::new: a copy of the device's block, not yet modified. */
    constructor (blockId: nat, device: Disk)
      ensures Valid() && fresh(cache)
      ensures this.blockId == blockId && this.device == device
      ensures cache[..] == Read(device.blocks, blockId) && !modified
    {
      var b := Read(device.blocks, blockId);
      var a := new u8[BLOCK_SZ](i requires 0 <= i < BLOCK_SZ => b[i]);
      assert a[..] == b;
      this.cache := a;
      this.blockId := blockId;
      this.device := device;
      this.modified := false;
    }

    /**
     * BlockCache::read (get_ref): the `size` bytes of the value at `offset`;
     * the bytes and the dirty flag stay as they are.
     */
    method ReadAt(offset: nat, size: nat) returns (bytes: seq<u8>)
      requires Valid() && offset + size <= BLOCK_SZ
      ensures bytes == cache[offset..offset + size]
    {
      bytes := cache[offset..offset + size];
    }

    /**
     * BlockCache::modify (get_mut): the value at `offset` becomes `bytes`
     * and the block is marked modified; every other byte is kept.
     */
    method Modify(offset: nat, bytes: seq<u8>)
      requires Valid() && offset + |bytes| <= BLOCK_SZ
      modifies this, cache
      ensures modified
      ensures cache[..] == Patch(old(cache[..]), offset, bytes)
    {
      modified := true;
      var i := 0;
      while i < |bytes|
        invariant 0 <= i <= |bytes| && modified
        invariant cache[..] == Patch(old(cache[..]), offset, bytes[..i])
      {
        cache[offset + i] := bytes[i];
        i := i + 1;
      }
      assert bytes[..i] == bytes;
    }

    /** BlockCache::sync (also what dropping it does): a modified block goes back to the device. */
    method Sync()
      requires Valid()
      modifies this, device
      ensures !modified
      ensures device.blocks == if old(modified) then WriteBlock(old(device.blocks), blockId, Contents())
                               else old(device.blocks)
    {
      if modified {
        device.blocks := WriteBlock(device.blocks, blockId, cache[..]);
        modified := false;
      }
    }
  }

  const BLOCK_CACHE_SIZE: nat := 16

  /**
   * A queue entry: the block id, the shared cache, and how many handles
   * other than the queue's own are alive (`Arc::strong_count` minus one).
   */
  datatype Entry = Entry(id: nat, cache: BlockCache, users: nat)

  /** Position of the entry for block `id`, if any. */
  function Find(q: seq<Entry>, id: nat): (r: Option<nat>)
    ensures r.Some? ==> r.value < |q| && q[r.value].id == id && forall j :: 0 <= j < r.value ==> q[j].id != id
    ensures r.None? ==> forall j :: 0 <= j < |q| ==> q[j].id != id
  {
    if q == [] then None
    else if q[0].id == id then Some(0)
    else match Find(q[1..], id)
      case None => None
      case Some(k) => Some(k + 1)
  }

  /** Position of the first entry only the queue holds (strong count 1), if any. */
  function FirstUnused(q: seq<Entry>): (r: Option<nat>)
    ensures r.Some? ==> r.value < |q| && q[r.value].users == 0 && forall j :: 0 <= j < r.value ==> q[j].users > 0
    ensures r.None? ==> forall j :: 0 <= j < |q| ==> q[j].users > 0
  {
    if q == [] then None
    else if q[0].users == 0 then Some(0)
    else match FirstUnused(q[1..])
      case None => None
      case Some(k) => Some(k + 1)
  }

  /** The queue with entry k taken out. */
  function Without(q: seq<Entry>, k: nat): seq<Entry>
    requires k < |q|
  {
    q[..k] + q[k + 1..]
  }

  /** Every cached block of the queue, the arrays holding their bytes included. */
  function Footprint(q: seq<Entry>): set<object> {
    (set i | 0 <= i < |q| :: q[i].cache) + (set i | 0 <= i < |q| :: q[i].cache.cache)
  }

  /** What flushing the queue from the front leaves on the device. */
  function Flush(blocks: seq<Block>, q: seq<Entry>): seq<Block>
    requires forall i :: 0 <= i < |q| ==> q[i].cache.Valid()
    reads Footprint(q)
    decreases |q|
  {
    if q == [] then blocks
    else
      var e := q[0];
      var next := if e.cache.modified then WriteBlock(blocks, e.cache.blockId, e.cache.Contents()) else blocks;
      Flush(next, q[1..])
  }

  class BlockCacheManager {
    var queue: seq<Entry>
    const device: Disk

    /**
     * At most 16 entries, one per block id, each entry's cache being the
     * cache of that block on this manager's device.
     */
    predicate Valid()
      reads this
    {
      && |queue| <= BLOCK_CACHE_SIZE
      && (forall i :: 0 <= i < |queue| ==>
            queue[i].cache.Valid() && queue[i].cache.blockId == queue[i].id && queue[i].cache.device == device)
      && (forall i, j :: 0 <= i < j < |queue| ==> queue[i].id != queue[j].id)
    }

    /** BlockCacheManager::new: an empty queue. */
    constructor (device: Disk)
      ensures Valid() && queue == [] && this.device == device
    {
      queue := [];
      this.device := device;
    }

    /**
     * BlockCacheManager::get_block_cache. A cached block is handed out
     * again with the queue as it was (one more user). Otherwise a new cache
     * of the device's block is appended; if the queue is full, the first
     * entry nobody else holds is dropped first, which writes it back, and
     * with no such entry the lookup fails.
     */
    method GetBlockCache(id: nat) returns (r: Option<BlockCache>)
      requires Valid()
      modifies this, device, Footprint(queue)
      ensures Valid()
      ensures r.Some? ==> var f := Find(queue, id); f.Some? && queue[f.value].cache == r.value
      ensures match Find(old(queue), id)
        case Some(k) =>
          && r == Some(old(queue)[k].cache)
          && queue == old(queue)[k := old(queue)[k].(users := old(queue)[k].users + 1)]
          && device.blocks == old(device.blocks)
        case None =>
          if |old(queue)| < BLOCK_CACHE_SIZE then
            && r.Some? && fresh(r.value) && queue == old(queue) + [Entry(id, r.value, 1)]
            && r.value.cache[..] == Read(old(device.blocks), id) && !r.value.modified
            && device.blocks == old(device.blocks)
          else match FirstUnused(old(queue))
            case None => r.None? && queue == old(queue) && device.blocks == old(device.blocks)
            case Some(v) =>
              var victim := old(queue)[v].cache;
              && r.Some? && fresh(r.value) && queue == Without(old(queue), v) + [Entry(id, r.value, 1)]
              && device.blocks == (if old(victim.modified) then WriteBlock(old(device.blocks), victim.blockId, old(victim.Contents()))
                                   else old(device.blocks))
              && r.value.cache[..] == Read(old(device.blocks), id) && !r.value.modified
    {
      var found := FindEntry(id);
      if found.Some? {
        var c := Reuse(id, found.value);
        return Some(c);
      }
      if |queue| == BLOCK_CACHE_SIZE {
        var unused := FindUnused();
        if unused.None? {
          return None;
        }
        Evict(unused.value);
      }
      var c := Append(id);
      r := Some(c);
    }

    /** The hit: entry k's cache is handed out once more. */
    method Reuse(id: nat, k: nat) returns (c: BlockCache)
      requires Valid() && Find(queue, id) == Some(k)
      modifies this
      ensures Valid() && c == old(queue)[k].cache && Find(queue, id) == Some(k)
      ensures queue == old(queue)[k := old(queue)[k].(users := old(queue)[k].users + 1)]
    {
      c := queue[k].cache;
      queue := queue[k := queue[k].(users := queue[k].users + 1)];
      FindSameIds(old(queue), queue, id);
    }

    /** `self.queue.remove(idx)`: the dropped entry is synced, which writes it back if modified. */
    method Evict(v: nat)
      requires Valid() && v < |queue|
      modifies this, device, queue[v].cache
      ensures Valid() && queue == Without(old(queue), v)
      ensures var victim := old(queue)[v].cache;
        device.blocks == if old(victim.modified) then WriteBlock(old(device.blocks), victim.blockId, victim.Contents())
                         else old(device.blocks)
    {
      var victim := queue[v].cache;
      queue := Without(queue, v);
      victim.Sync();
    }

    /** A new cache of block `id` read from the device, appended at the back. */
    method Append(id: nat) returns (c: BlockCache)
      requires Valid() && Find(queue, id).None? && |queue| < BLOCK_CACHE_SIZE
      modifies this
      ensures Valid() && fresh(c) && queue == old(queue) + [Entry(id, c, 1)]
      ensures c.cache[..] == Read(device.blocks, id) && !c.modified
      ensures Find(queue, id) == Some(|old(queue)|)
    {
      c := new BlockCache(id, device);
      queue := queue + [Entry(id, c, 1)];
      FindAfterAppend(old(queue), Entry(id, c, 1));
    }

    /** `self.queue.iter().find(|pair| pair.0 == block_id)`. */
    method FindEntry(id: nat) returns (r: Option<nat>)
      ensures r == Find(queue, id)
    {
      var i := 0;
      while i < |queue|
        invariant 0 <= i <= |queue|
        invariant forall j :: 0 <= j < i ==> queue[j].id != id
      {
        if queue[i].id == id {
          return Some(i);
        }
        i := i + 1;
      }
      return None;
    }

    /** The search for the first entry whose `Arc::strong_count` is 1. */
    method FindUnused() returns (r: Option<nat>)
      ensures r == FirstUnused(queue)
    {
      var i := 0;
      while i < |queue|
        invariant 0 <= i <= |queue|
        invariant forall j :: 0 <= j < i ==> queue[j].users > 0
      {
        if queue[i].users == 0 {
          return Some(i);
        }
        i := i + 1;
      }
      return None;
    }

    /** A caller drops its handle on entry k: one user fewer, nothing else changes. */
    method Release(k: nat)
      requires Valid() && k < |queue| && queue[k].users > 0
      modifies this
      ensures Valid()
      ensures queue == old(queue)[k := old(queue)[k].(users := old(queue)[k].users - 1)]
    {
      queue := queue[k := queue[k].(users := queue[k].users - 1)];
    }

    /**
     * block_cache_sync_all: every cached block is synced in queue order;
     * none is left modified and the device holds what flushing the queue
     * writes.
     */
    method SyncAll()
      requires Valid()
      modifies device, set i | 0 <= i < |queue| :: queue[i].cache
      ensures forall i :: 0 <= i < |queue| ==> !queue[i].cache.modified
      ensures device.blocks == old(Flush(device.blocks, queue))
    {
      var i := 0;
      while i < |queue|
        invariant 0 <= i <= |queue|
        invariant forall j :: 0 <= j < i ==> !queue[j].cache.modified
        invariant Flush(device.blocks, queue[i..]) == old(Flush(device.blocks, queue))
      {
        var c := queue[i].cache;
        assert c !in Footprint(queue[i + 1..]);
        assert queue[i..][1..] == queue[i + 1..];
        c.Sync();
        i := i + 1;
      }
    }
  }

  /** Find looks only at the ids. */
  lemma {:induction false} FindSameIds(q: seq<Entry>, q2: seq<Entry>, id: nat)
    requires |q| == |q2| && forall i :: 0 <= i < |q| ==> q[i].id == q2[i].id
    ensures Find(q, id) == Find(q2, id)
  {
    if q != [] {
      FindSameIds(q[1..], q2[1..], id);
    }
  }

  /** A block appended to a queue without it is found at the back. */
  lemma {:induction false} FindAfterAppend(q: seq<Entry>, e: Entry)
    requires Find(q, e.id).None?
    ensures Find(q + [e], e.id) == Some(|q|)
  {
    if q != [] {
      assert (q + [e])[1..] == q[1..] + [e];
      FindAfterAppend(q[1..], e);
    }
  }
}
