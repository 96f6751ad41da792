/** The allocation bitmaps of easy-fs: one bit per inode or data block. */
module EfsBitmap {
  import opened Wrappers
  import opened EfsBlock

  /** Bits held by one bitmap block, BLOCK_SZ * 8. */
  const BLOCK_BITS: nat := 4096

  /** A bitmap of `blocks` consecutive blocks starting at `startBlockId`. */
  datatype Bitmap = Bitmap(startBlockId: nat, blocks: nat)

  /** How many bits the bitmap manages. */
  function Maximum(bm: Bitmap): (n: nat)
    ensures n == bm.blocks * 4096
  {
    bm.blocks * BLOCK_BITS
  }

  /** The device block that holds `bit`. */
  function Holder(bm: Bitmap, bit: nat): nat {
    bm.startBlockId + bit / BLOCK_BITS
  }

  /** Whether `bit` is marked allocated on the disk. */
  predicate IsSet(blocks: seq<Block>, bm: Bitmap, bit: nat) {
    BitAt(Read(blocks, Holder(bm, bit)), bit % BLOCK_BITS)
  }

  /** Bit j of u64 word w of a bitmap block. */
  predicate WordBit(b: Block, w: nat, j: nat)
    requires w < 64 && j < 64
  {
    BitAt(b, 64 * w + j)
  }

  /** Whether u64 word w of the block is `u64::MAX`. */
  predicate WordFull(b: Block, w: nat)
    requires w < 64
  {
    forall j :: 0 <= j < 64 ==> WordBit(b, w, j)
  }

  /**
   * The search inside one bitmap block: the first u64 word that is not all
   * ones, then its trailing ones. The bit found is the lowest clear bit.
   */
  /** A full word extends the run of set bits by 64. */
  lemma FullWordExtends(b: Block, w: nat)
    requires w < 64 && WordFull(b, w)
    requires forall k :: 0 <= k < 64 * w ==> BitAt(b, k)
    ensures forall k :: 0 <= k < 64 * (w + 1) ==> BitAt(b, k)
  {
    forall k | 0 <= k < 64 * (w + 1)
      ensures BitAt(b, k)
    {
      if k >= 64 * w {
        assert WordBit(b, w, k - 64 * w);
      }
    }
  }

  method FindClear(b: Block) returns (r: Option<nat>)
    ensures r.Some? ==> r.value < BLOCK_BITS && !BitAt(b, r.value)
    ensures r.Some? ==> forall k :: 0 <= k < r.value ==> BitAt(b, k)
    ensures r.None? ==> forall k :: 0 <= k < BLOCK_BITS ==> BitAt(b, k)
  {
    var w := 0;
    while w < 64 && WordFull(b, w)
      invariant 0 <= w <= 64
      invariant forall k :: 0 <= k < 64 * w ==> BitAt(b, k)
    {
      FullWordExtends(b, w);
      w := w + 1;
    }
    if w == 64 {
      return None;
    }
    var inner := FirstClearInWord(b, w);
    forall k | 64 * w <= k < 64 * w + inner
      ensures BitAt(b, k)
    {
      assert WordBit(b, w, k - 64 * w);
    }
    r := Some(64 * w + inner);
  }

  /** The trailing ones of a word that is not full: its lowest clear bit. */
  method FirstClearInWord(b: Block, w: nat) returns (inner: nat)
    requires w < 64 && !WordFull(b, w)
    ensures inner < 64 && !WordBit(b, w, inner)
    ensures forall j :: 0 <= j < inner ==> WordBit(b, w, j)
  {
    inner := 0;
    while inner < 64 && WordBit(b, w, inner)
      invariant 0 <= inner <= 64
      invariant forall j :: 0 <= j < inner ==> WordBit(b, w, j)
    {
      inner := inner + 1;
    }
  }

  lemma Split(blockId: nat, j: nat)
    requires j < BLOCK_BITS
    ensures (blockId * BLOCK_BITS + j) / BLOCK_BITS == blockId
    ensures (blockId * BLOCK_BITS + j) % BLOCK_BITS == j
  {
  }

  /** The bits of the bitmap's block number `blockId`. */
  lemma IsSetInBlock(blocks: seq<Block>, bm: Bitmap, blockId: nat, j: nat)
    requires j < BLOCK_BITS
    ensures IsSet(blocks, bm, blockId * BLOCK_BITS + j) == BitAt(Read(blocks, bm.startBlockId + blockId), j)
  {
    Split(blockId, j);
  }

  lemma BitInRange(bm: Bitmap, blockId: nat, j: nat)
    requires j < BLOCK_BITS && blockId < bm.blocks
    ensures blockId * BLOCK_BITS + j < Maximum(bm)
    ensures Holder(bm, blockId * BLOCK_BITS + j) == bm.startBlockId + blockId
  {
    Split(blockId, j);
    assert (blockId + 1) * BLOCK_BITS <= bm.blocks * BLOCK_BITS;
  }

  /** A clear bit found in the bitmap's block `blockId`, after all earlier blocks were full. */
  lemma FoundInBlock(blocks: seq<Block>, bm: Bitmap, blockId: nat, b: Block, j: nat)
    requires j < BLOCK_BITS && blockId < bm.blocks && bm.startBlockId + bm.blocks <= |blocks|
    requires b == blocks[bm.startBlockId + blockId]
    requires forall bit :: 0 <= bit < blockId * BLOCK_BITS ==> IsSet(blocks, bm, bit)
    requires !BitAt(b, j)
    requires forall k :: 0 <= k < j ==> BitAt(b, k)
    ensures !IsSet(blocks, bm, blockId * BLOCK_BITS + j)
    ensures forall bit :: 0 <= bit < blockId * BLOCK_BITS + j ==> IsSet(blocks, bm, bit)
  {
    IsSetInBlock(blocks, bm, blockId, j);
    forall k | blockId * BLOCK_BITS <= k < blockId * BLOCK_BITS + j
      ensures IsSet(blocks, bm, k)
    {
      IsSetInBlock(blocks, bm, blockId, k - blockId * BLOCK_BITS);
    }
  }

  /** A full block extends the prefix of set bits by a whole block. */
  lemma FullBlock(blocks: seq<Block>, bm: Bitmap, blockId: nat, b: Block)
    requires blockId < bm.blocks && bm.startBlockId + bm.blocks <= |blocks|
    requires b == blocks[bm.startBlockId + blockId]
    requires forall bit :: 0 <= bit < blockId * BLOCK_BITS ==> IsSet(blocks, bm, bit)
    requires forall k :: 0 <= k < BLOCK_BITS ==> BitAt(b, k)
    ensures forall bit :: 0 <= bit < (blockId + 1) * BLOCK_BITS ==> IsSet(blocks, bm, bit)
  {
    forall k | blockId * BLOCK_BITS <= k < (blockId + 1) * BLOCK_BITS
      ensures IsSet(blocks, bm, k)
    {
      IsSetInBlock(blocks, bm, blockId, k - blockId * BLOCK_BITS);
    }
  }

  /**
   * Bitmap::alloc: marks the lowest clear bit allocated and returns it, or
   * returns None when every bit is set.
   */
  method Alloc(bm: Bitmap, disk: Disk) returns (pos: Option<nat>)
    requires bm.startBlockId + bm.blocks <= |disk.blocks|
    modifies disk
    ensures pos.None? ==> disk.blocks == old(disk.blocks)
    ensures pos.None? ==> forall bit :: 0 <= bit < Maximum(bm) ==> IsSet(old(disk.blocks), bm, bit)
    ensures pos.Some? ==> pos.value < Maximum(bm) && !IsSet(old(disk.blocks), bm, pos.value)
    ensures pos.Some? ==> forall bit :: 0 <= bit < pos.value ==> IsSet(old(disk.blocks), bm, bit)
    ensures pos.Some? ==> Holder(bm, pos.value) < |old(disk.blocks)|
    ensures pos.Some? ==> disk.blocks == Marked(old(disk.blocks), bm, pos.value, true)
  {
    var blockId := 0;
    while blockId < bm.blocks
      invariant blockId <= bm.blocks
      invariant disk.blocks == old(disk.blocks)
      invariant forall bit :: 0 <= bit < blockId * BLOCK_BITS ==> IsSet(disk.blocks, bm, bit)
    {
      var h := bm.startBlockId + blockId;
      var b := disk.blocks[h];
      var found := FindClear(b);
      if found.Some? {
        var bit := blockId * BLOCK_BITS + found.value;
        BitInRange(bm, blockId, found.value);
        FoundInBlock(disk.blocks, bm, blockId, b, found.value);
        disk.blocks := Marked(disk.blocks, bm, bit, true);
        return Some(bit);
      }
      FullBlock(disk.blocks, bm, blockId, b);
      blockId := blockId + 1;
    }
    return None;
  }

  /** Bitmap::dealloc: clears a bit that must be set. */
  method Dealloc(bm: Bitmap, disk: Disk, bit: nat)
    requires Holder(bm, bit) < |disk.blocks|
    requires IsSet(disk.blocks, bm, bit)
    modifies disk
    ensures disk.blocks == Marked(old(disk.blocks), bm, bit, false)
  {
    disk.blocks := Marked(disk.blocks, bm, bit, false);
  }

  /** The disk after Alloc marks `bit`; the same update Dealloc undoes. */
  function Marked(blocks: seq<Block>, bm: Bitmap, bit: nat, v: bool): seq<Block>
    requires Holder(bm, bit) < |blocks|
  {
    blocks[Holder(bm, bit) := WithBit(blocks[Holder(bm, bit)], bit % BLOCK_BITS, v)]
  }

  /** Marking a bit changes that bit and no other bit of the bitmap. */
  lemma MarkedIsSet(blocks: seq<Block>, bm: Bitmap, bit: nat, v: bool, other: nat)
    requires Holder(bm, bit) < |blocks|
    ensures IsSet(Marked(blocks, bm, bit, v), bm, other) == if other == bit then v else IsSet(blocks, bm, other)
  {
    if Holder(bm, other) == Holder(bm, bit) && other != bit {
      assert other % BLOCK_BITS != bit % BLOCK_BITS;
    }
  }

  /** Freeing the bit just allocated restores the disk exactly. */
  lemma AllocThenDealloc(blocks: seq<Block>, bm: Bitmap, bit: nat)
    requires Holder(bm, bit) < |blocks| && !IsSet(blocks, bm, bit)
    ensures IsSet(Marked(blocks, bm, bit, true), bm, bit)
    ensures Marked(Marked(blocks, bm, bit, true), bm, bit, false) == blocks
  {
    WithBitUndo(blocks[Holder(bm, bit)], bit % BLOCK_BITS);
  }
}
