/**
 * The Inode handle of the easy-fs VFS layer: where a disk inode is stored,
 * and the operations that grow a file, write through it, read it and clear
 * it. Every block a file uses lies in the data area and is marked in the
 * data bitmap; these operations keep it so.
 */
module VfsInode {
  import opened Words
  import opened EfsBlock
  import opened EfsBitmap
  import opened EfsInode
  import opened EfsGrow
  import opened EfsClear
  import opened EfsReadWrite
  import opened Efs

  /** Inode: the block holding a disk inode and the inode's offset in it. */
  datatype Inode = Inode(blockId: nat, blockOffset: nat)

  /** The Inode handle find, create and root_inode build for inode number `id`. */
  function NodeOf(fs: EasyFileSystem, id: u32): (node: Inode)
    ensures node.blockId == fs.inodeAreaStart + id / INODES_PER_BLOCK
    ensures node.blockOffset == (id % INODES_PER_BLOCK) * DISK_INODE_SZ
  {
    var pos := DiskInodePos(fs, id);
    Inode(pos.0, pos.1)
  }

  /** A slot of the inode area: a 128-byte aligned place before the data bitmap. */
  predicate IsSlot(fs: EasyFileSystem, node: Inode) {
    fs.inodeAreaStart <= node.blockId < fs.dataBitmap.startBlockId && Aligned(node)
  }

  /** The disk inode `read_disk_inode` sees. */
  function DiskInodeOf(blocks: seq<Block>, node: Inode): (r: DiskInode)
    requires node.blockOffset + DISK_INODE_SZ <= BLOCK_SZ
    ensures r.Shaped()
  {
    InodeOf(Read(blocks, node.blockId), node.blockOffset)
  }

  /** Two different 128-byte aligned slots of a block do not overlap. */
  lemma SlotsApart(a: nat, b: nat)
    requires a % DISK_INODE_SZ == 0 && b % DISK_INODE_SZ == 0 && a != b
    ensures a + DISK_INODE_SZ <= b || b + DISK_INODE_SZ <= a
  {
    assert a == DISK_INODE_SZ * (a / DISK_INODE_SZ);
    assert b == DISK_INODE_SZ * (b / DISK_INODE_SZ);
    if a / DISK_INODE_SZ < b / DISK_INODE_SZ {
      assert a / DISK_INODE_SZ + 1 <= b / DISK_INODE_SZ;
    } else {
      assert b / DISK_INODE_SZ + 1 <= a / DISK_INODE_SZ;
    }
  }

  /** An aligned slot: where disk inodes sit inside a block. */
  predicate Aligned(node: Inode) {
    node.blockOffset % DISK_INODE_SZ == 0 && node.blockOffset + DISK_INODE_SZ <= BLOCK_SZ
  }

  /**
   * The device once `modify_disk_inode` has left `inode` in the slot: it
   * reads back, and every other slot and every other block is as it was.
   */
  function StoreAt(blocks: seq<Block>, node: Inode, inode: DiskInode): (r: seq<Block>)
    requires inode.Shaped() && node.blockId < |blocks| && Aligned(node)
    ensures |r| == |blocks| && DiskInodeOf(r, node) == inode
    ensures forall b :: b != node.blockId ==> Read(r, b) == Read(blocks, b)
    ensures forall other: Inode :: (other != node && Aligned(other)) ==> DiskInodeOf(r, other) == DiskInodeOf(blocks, other)
  {
    var r := blocks[node.blockId := WithInode(blocks[node.blockId], node.blockOffset, inode)];
    InodeRoundTrip(blocks[node.blockId], node.blockOffset, inode);
    forall other: Inode | other != node && Aligned(other)
      ensures DiskInodeOf(r, other) == DiskInodeOf(blocks, other)
    {
      if other.blockId == node.blockId {
        SlotsApart(node.blockOffset, other.blockOffset);
        InodeFrame(blocks[node.blockId], node.blockOffset, inode, other.blockOffset);
      }
    }
    r
  }

  /** Inode numbers the inode bitmap can hand out have their slot in the inode area. */
  lemma NodeIsSlot(fs: EasyFileSystem, blocks: seq<Block>, area: nat, id: u32)
    requires Fits(fs, area, blocks) && id < Maximum(fs.inodeBitmap)
    ensures IsSlot(fs, NodeOf(fs, id))
  {
    var m := fs.inodeBitmap.blocks;
    assert Maximum(fs.inodeBitmap) / INODES_PER_BLOCK == m * 1024;
    assert id / INODES_PER_BLOCK < m * 1024;
    var k := id % INODES_PER_BLOCK;
    assert k * DISK_INODE_SZ % DISK_INODE_SZ == 0;
  }

  /** Whether device block `x` lies in the first `area` blocks of the data area. */
  predicate InArea(fs: EasyFileSystem, area: nat, x: int) {
    fs.dataAreaStart <= x < fs.dataAreaStart + area
  }

  /**
   * The regions of a mounted file system: the inode slots come before the
   * data bitmap, and the `area` blocks of the data area, every block the
   * data bitmap can name up to `area`, lie on the device.
   */
  ghost predicate Fits(fs: EasyFileSystem, area: nat, blocks: seq<Block>) {
    && Valid(fs, blocks)
    && fs.inodeAreaStart + Maximum(fs.inodeBitmap) / INODES_PER_BLOCK <= fs.dataBitmap.startBlockId
    && area <= Maximum(fs.dataBitmap) && fs.dataAreaStart + area <= |blocks|
    && fs.dataAreaStart + Maximum(fs.dataBitmap) <= U32_LIMIT
  }

  /**
   * A file the file system owns: well formed, of a size its index can
   * address, and every block it uses in the data area and marked in use.
   */
  ghost predicate Owned(fs: EasyFileSystem, area: nat, blocks: seq<Block>, inode: DiskInode) {
    && WellFormed(inode, blocks) && Sized(inode)
    && forall x :: x in Layout(inode, blocks) ==>
      InArea(fs, area, x) && IsSet(blocks, fs.dataBitmap, x - fs.dataAreaStart)
  }

  /** The free data blocks, as bits of the data bitmap. */
  ghost function Free(fs: EasyFileSystem, area: nat, blocks: seq<Block>): set<nat> {
    FreeBits(blocks, fs.dataBitmap, area)
  }

  /** The index blocks of a file whose blocks read the same in a second state lead to the same places. */
  lemma SameIndex(inode: DiskInode, b1: seq<Block>, b2: seq<Block>)
    requires WellFormed(inode, b1) && |b2| == |b1|
    requires forall x :: x in Layout(inode, b1) ==> Read(b2, x) == Read(b1, x)
    ensures forall i :: 0 <= i < DataBlocks(inode.size) ==> SameAt(inode, b1, inode, b2, i)
  {
    var n := DataBlocks(inode.size);
    var l := Layout(inode, b1);
    if DIRECT_BOUND < n {
      Indirect1At(inode, b1, n);
      assert l[Total(DIRECT_BOUND)] in l;
    }
    if INDIRECT1_BOUND < n {
      Indirect2At(inode, b1, n);
      assert l[Total(INDIRECT1_BOUND)] in l;
    }
    forall i | 0 <= i < n
      ensures SameAt(inode, b1, inode, b2, i)
    {
      if INDIRECT1_BOUND <= i {
        var a := (i - INDIRECT1_BOUND) / 128;
        assert INDIRECT1_BOUND + 128 * a <= i;
        L1At(inode, b1, n, a);
        assert l[L1Pos(a)] in l;
      }
    }
  }

  /**
   * A file whose blocks all read the same in a second state has the same
   * layout and the same bytes there.
   */
  lemma SameContents(inode: DiskInode, b1: seq<Block>, b2: seq<Block>)
    requires WellFormed(inode, b1) && |b2| == |b1|
    requires forall x :: x in Layout(inode, b1) ==> Read(b2, x) == Read(b1, x)
    ensures WellFormed(inode, b2) && Layout(inode, b2) == Layout(inode, b1)
    ensures forall i :: 0 <= i < DataBlocks(inode.size) ==> BlockId(inode, b2, i) == BlockId(inode, b1, i)
    ensures forall p :: 0 <= p < DataBlocks(inode.size) * BLOCK_SZ ==> ByteAt(inode, b2, p) == ByteAt(inode, b1, p)
  {
    var n := DataBlocks(inode.size);
    var l := Layout(inode, b1);
    SameIndex(inode, b1, b2);
    LayoutFrame(inode, b1, inode, b2, n);
    forall i | 0 <= i < n
      ensures BlockId(inode, b2, i) == BlockId(inode, b1, i)
      ensures Read(b2, BlockId(inode, b1, i)) == Read(b1, BlockId(inode, b1, i))
    {
      SameAtBlock(inode, b1, inode, b2, i);
      DataAt(inode, b1, n, i);
      assert l[DataPos(i)] in l;
    }
  }

  /** Taking a free bit of the data bitmap removes it, and only it, from the free set. */
  lemma TakeFree(fs: EasyFileSystem, area: nat, blocks: seq<Block>, bit: nat)
    requires Fits(fs, area, blocks) && bit < area && !IsSet(blocks, fs.dataBitmap, bit)
    ensures fs.dataBitmap.startBlockId <= Holder(fs.dataBitmap, bit) < fs.dataAreaStart
    ensures Holder(fs.dataBitmap, bit) < |blocks|
    ensures var after := Marked(blocks, fs.dataBitmap, bit, true);
      && Free(fs, area, after) == Free(fs, area, blocks) - {bit}
      && |Free(fs, area, after)| == |Free(fs, area, blocks)| - 1
      && forall b :: IsSet(after, fs.dataBitmap, b) == (b == bit || IsSet(blocks, fs.dataBitmap, b))
  {
    var bm := fs.dataBitmap;
    var after := Marked(blocks, bm, bit, true);
    forall b
      ensures IsSet(after, bm, b) == (b == bit || IsSet(blocks, bm, b))
    {
      MarkedIsSet(blocks, bm, bit, true, b);
    }
    assert Free(fs, area, after) == Free(fs, area, blocks) - {bit};
    assert bit in Free(fs, area, blocks);
  }

  /** A sequence of distinct ids followed by distinct ids none of which it holds is distinct. */
  lemma DistinctAppend(a: seq<u32>, b: seq<u32>)
    requires Distinct(a) && Distinct(b) && forall j :: 0 <= j < |b| ==> b[j] !in a
    ensures Distinct(a + b)
  {
    forall i, j | 0 <= i < j < |a + b|
      ensures (a + b)[i] != (a + b)[j]
    {
      if i < |a| && j >= |a| {
        assert (a + b)[i] in a;
      }
    }
  }

  /** Data block `y` lies in the area, was free in `before` and is marked in `blocks`. */
  ghost predicate TakenId(fs: EasyFileSystem, area: nat, before: seq<Block>, blocks: seq<Block>, y: u32) {
    && InArea(fs, area, y) && !IsSet(before, fs.dataBitmap, y - fs.dataAreaStart)
    && IsSet(blocks, fs.dataBitmap, y - fs.dataAreaStart)
  }

  /** The ids taken so far: distinct, and each was free before and is marked now. */
  ghost predicate IdsTaken(fs: EasyFileSystem, area: nat, before: seq<Block>, blocks: seq<Block>, v: seq<u32>) {
    Distinct(v) && forall j :: 0 <= j < |v| ==> TakenId(fs, area, before, blocks, v[j])
  }

  /**
   * The blocks in `v` were free in `before` and are taken now: the device
   * differs from `before` only in data-bitmap blocks, where no bit was
   * cleared and exactly the bits of `v` were set.
   */
  ghost predicate Taken(fs: EasyFileSystem, area: nat, before: seq<Block>, blocks: seq<Block>, v: seq<u32>) {
    && IdsTaken(fs, area, before, blocks, v) && |blocks| == |before| && Fits(fs, area, blocks)
    && |Free(fs, area, blocks)| == |Free(fs, area, before)| - |v|
    && BitmapOnly(fs, before, blocks)
  }

  /** Only data-bitmap blocks differ from `before`, and no bit of it was cleared. */
  ghost predicate BitmapOnly(fs: EasyFileSystem, before: seq<Block>, blocks: seq<Block>) {
    && (forall b :: IsSet(before, fs.dataBitmap, b) ==> IsSet(blocks, fs.dataBitmap, b))
    && (forall x :: !(fs.dataBitmap.startBlockId <= x < fs.dataAreaStart) ==> Read(blocks, x) == Read(before, x))
  }

  /** Setting one data-bitmap bit keeps BitmapOnly. */
  lemma BitmapOnlyStep(fs: EasyFileSystem, before: seq<Block>, cur: seq<Block>, bit: nat)
    requires BitmapOnly(fs, before, cur)
    requires fs.dataBitmap.startBlockId <= Holder(fs.dataBitmap, bit) < fs.dataAreaStart
    requires Holder(fs.dataBitmap, bit) < |cur|
    ensures BitmapOnly(fs, before, Marked(cur, fs.dataBitmap, bit, true))
  {
    var bm := fs.dataBitmap;
    var after := Marked(cur, bm, bit, true);
    forall y | !(bm.startBlockId <= y < fs.dataAreaStart)
      ensures Read(after, y) == Read(before, y)
    {
      assert Read(after, y) == Read(cur, y);
    }
    forall b | IsSet(before, bm, b)
      ensures IsSet(after, bm, b)
    {
      assert IsSet(cur, bm, b);
      MarkedIsSet(cur, bm, bit, true, b);
    }
  }

  /** An id whose bit is still clear is none of the ids already taken. */
  lemma FreshId(fs: EasyFileSystem, area: nat, before: seq<Block>, cur: seq<Block>, v: seq<u32>, x: u32)
    requires IdsTaken(fs, area, before, cur, v) && InArea(fs, area, x)
    requires !IsSet(cur, fs.dataBitmap, x - fs.dataAreaStart)
    ensures Distinct(v + [x])
  {
    forall j | 0 <= j < |v|
      ensures v[j] != x
    {
      assert TakenId(fs, area, before, cur, v[j]);
    }
    DistinctAppend(v, [x]);
  }

  /** One more id, free before and marked now, keeps IdsTaken when marking cleared no bit. */
  lemma IdsTakenStep(fs: EasyFileSystem, area: nat, before: seq<Block>, cur: seq<Block>, after: seq<Block>,
                     v: seq<u32>, x: u32)
    requires IdsTaken(fs, area, before, cur, v) && InArea(fs, area, x)
    requires !IsSet(cur, fs.dataBitmap, x - fs.dataAreaStart) && !IsSet(before, fs.dataBitmap, x - fs.dataAreaStart)
    requires IsSet(after, fs.dataBitmap, x - fs.dataAreaStart)
    requires forall b :: IsSet(cur, fs.dataBitmap, b) ==> IsSet(after, fs.dataBitmap, b)
    ensures IdsTaken(fs, area, before, after, v + [x])
  {
    var bm := fs.dataBitmap;
    var v2 := v + [x];
    FreshId(fs, area, before, cur, v, x);
    forall j | 0 <= j < |v2|
      ensures TakenId(fs, area, before, after, v2[j])
    {
      if j < |v| {
        assert v2[j] == v[j] && TakenId(fs, area, before, cur, v[j]);
      }
    }
  }

  /** Taking one more free bit extends what was taken. */
  lemma TakenStep(fs: EasyFileSystem, area: nat, before: seq<Block>, cur: seq<Block>, v: seq<u32>, x: u32)
    requires Taken(fs, area, before, cur, v) && InArea(fs, area, x)
    requires !IsSet(cur, fs.dataBitmap, x - fs.dataAreaStart)
    ensures Holder(fs.dataBitmap, x - fs.dataAreaStart) < |cur|
    ensures Taken(fs, area, before, Marked(cur, fs.dataBitmap, x - fs.dataAreaStart, true), v + [x])
  {
    var bm := fs.dataBitmap;
    var bit := x - fs.dataAreaStart;
    TakeFree(fs, area, cur, bit);
    var after := Marked(cur, bm, bit, true);
    assert !IsSet(before, bm, bit);
    IdsTakenStep(fs, area, before, cur, after, v, x);
    BitmapOnlyStep(fs, before, cur, bit);
  }

  /** One alloc_data call of the loop: one more free block taken. */
  method TakeOne(fs: EasyFileSystem, ghost area: nat, ghost before: seq<Block>, disk: Disk, v: seq<u32>)
    returns (v2: seq<u32>)
    requires Taken(fs, area, before, disk.blocks, v) && |v| < |Free(fs, area, before)|
    modifies disk
    ensures |v2| == |v| + 1 && Taken(fs, area, before, disk.blocks, v2)
  {
    ghost var cur := disk.blocks;
    var x := AllocDataInArea(fs, area, disk);
    TakenStep(fs, area, before, cur, v, x);
    v2 := v + [x];
  }

  /** What the loop leaves: the file untouched and still owned, its blocks none of the ones taken. */
  lemma TakenKeepsFile(fs: EasyFileSystem, area: nat, inode: DiskInode, before: seq<Block>, blocks: seq<Block>, v: seq<u32>)
    requires Fits(fs, area, before) && Owned(fs, area, before, inode) && Taken(fs, area, before, blocks, v)
    ensures forall j :: 0 <= j < |v| ==> v[j] !in Layout(inode, before)
    ensures Owned(fs, area, blocks, inode) && Layout(inode, blocks) == Layout(inode, before)
    ensures forall p :: 0 <= p < DataBlocks(inode.size) * BLOCK_SZ ==> ByteAt(inode, blocks, p) == ByteAt(inode, before, p)
  {
    TakenOutsideFile(fs, area, inode, before, blocks, v);
    FileBlocksKept(fs, area, inode, before, blocks);
    SameContents(inode, before, blocks);
    OwnedKept(fs, area, inode, before, blocks);
  }

  /** The blocks taken were free, and the file's blocks were not. */
  lemma TakenOutsideFile(fs: EasyFileSystem, area: nat, inode: DiskInode, before: seq<Block>, blocks: seq<Block>, v: seq<u32>)
    requires Owned(fs, area, before, inode) && IdsTaken(fs, area, before, blocks, v)
    ensures forall j :: 0 <= j < |v| ==> v[j] !in Layout(inode, before)
  {
    forall j | 0 <= j < |v|
      ensures v[j] !in Layout(inode, before)
    {
      assert TakenId(fs, area, before, blocks, v[j]);
    }
  }

  /** A device changed only in data-bitmap blocks reads the same in every block of an owned file. */
  lemma FileBlocksKept(fs: EasyFileSystem, area: nat, inode: DiskInode, before: seq<Block>, blocks: seq<Block>)
    requires Fits(fs, area, before) && Owned(fs, area, before, inode) && BitmapOnly(fs, before, blocks)
    ensures forall y :: y in Layout(inode, before) ==> Read(blocks, y) == Read(before, y)
  {
    forall y | y in Layout(inode, before)
      ensures Read(blocks, y) == Read(before, y)
    {
      assert InArea(fs, area, y);
    }
  }

  /** The file stays owned once its layout is unchanged and no bitmap bit was cleared. */
  lemma OwnedKept(fs: EasyFileSystem, area: nat, inode: DiskInode, before: seq<Block>, blocks: seq<Block>)
    requires Owned(fs, area, before, inode) && BitmapOnly(fs, before, blocks)
    requires WellFormed(inode, blocks) && Layout(inode, blocks) == Layout(inode, before)
    ensures Owned(fs, area, blocks, inode)
  {
    forall x | x in Layout(inode, blocks)
      ensures InArea(fs, area, x) && IsSet(blocks, fs.dataBitmap, x - fs.dataAreaStart)
    {
      assert IsSet(before, fs.dataBitmap, x - fs.dataAreaStart);
    }
  }

  /**
   * The loop of Inode::increase_size: `count` calls of alloc_data, each
   * taking a different free block of the data area. Only data-bitmap
   * blocks change, and the file's own blocks stay as they were.
   */
  method AllocBlocks(fs: EasyFileSystem, ghost area: nat, ghost inode: DiskInode, count: nat, disk: Disk)
    returns (v: seq<u32>)
    requires Fits(fs, area, disk.blocks) && Owned(fs, area, disk.blocks, inode)
    requires count <= |Free(fs, area, disk.blocks)|
    modifies disk
    ensures |v| == count && Taken(fs, area, old(disk.blocks), disk.blocks, v)
    ensures forall j :: 0 <= j < |v| ==> v[j] !in Layout(inode, old(disk.blocks))
    ensures Owned(fs, area, disk.blocks, inode) && Layout(inode, disk.blocks) == Layout(inode, old(disk.blocks))
    ensures forall p :: 0 <= p < DataBlocks(inode.size) * BLOCK_SZ ==>
      ByteAt(inode, disk.blocks, p) == ByteAt(inode, old(disk.blocks), p)
  {
    ghost var before := disk.blocks;
    v := [];
    while |v| < count
      invariant |v| <= count && Taken(fs, area, before, disk.blocks, v)
    {
      v := TakeOne(fs, area, before, disk, v);
    }
    TakenKeepsFile(fs, area, inode, before, disk.blocks, v);
  }

  /** A file grown from `inode` to `r` keeps its data blocks: they sit at the same layout positions. */
  lemma GrowKeepsIds(inode: DiskInode, b1: seq<Block>, r: DiskInode, b2: seq<Block>)
    requires inode.Shaped() && r.Shaped() && DataBlocks(inode.size) <= DataBlocks(r.size) <= MAX_DATA_BLOCKS
    requires Layout(inode, b1) <= Layout(r, b2)
    ensures forall i :: 0 <= i < DataBlocks(inode.size) ==> BlockId(r, b2, i) == BlockId(inode, b1, i)
  {
    forall i | 0 <= i < DataBlocks(inode.size)
      ensures BlockId(r, b2, i) == BlockId(inode, b1, i)
    {
      DataAt(inode, b1, DataBlocks(inode.size), i);
      DataAt(r, b2, DataBlocks(r.size), i);
    }
  }

  /**
   * A device changed only at blocks of the data area has the same data
   * bitmap up to `area`, and so the same free blocks.
   */
  lemma BitsApart(fs: EasyFileSystem, area: nat, mid: seq<Block>, after: seq<Block>, l: seq<u32>)
    requires Fits(fs, area, mid) && |after| == |mid|
    requires forall x :: x in l ==> InArea(fs, area, x)
    requires forall id :: 0 <= id < |after| && id !in l ==> after[id] == mid[id]
    ensures forall b: nat :: b < area ==> IsSet(after, fs.dataBitmap, b) == IsSet(mid, fs.dataBitmap, b)
    ensures Free(fs, area, after) == Free(fs, area, mid)
  {
    forall b: nat | b < area
      ensures IsSet(after, fs.dataBitmap, b) == IsSet(mid, fs.dataBitmap, b)
    {
      var h := Holder(fs.dataBitmap, b);
      assert b / BLOCK_BITS < fs.dataBitmap.blocks;
      assert h < fs.dataAreaStart;
      assert h !in l;
    }
  }

  /** What increase_size needs of the blocks just allocated: with the old layout they are distinct and on the device. */
  lemma GrowReady(fs: EasyFileSystem, area: nat, inode: DiskInode, before: seq<Block>, mid: seq<Block>, newSize: u32, v: seq<u32>)
    requires Fits(fs, area, mid) && Owned(fs, area, mid, inode) && IdsTaken(fs, area, before, mid, v)
    requires forall j :: 0 <= j < |v| ==> v[j] !in Layout(inode, mid)
    requires inode.size < newSize && newSize as int <= MAX_FILE_SIZE
    requires |v| == TotalBlocks(newSize) - TotalBlocks(inode.size)
    ensures DataBlocks(inode.size) <= DataBlocks(newSize) <= MAX_DATA_BLOCKS
    ensures Total(DataBlocks(newSize)) == Total(DataBlocks(inode.size)) + |v|
    ensures Grow(inode, mid, newSize, v) == Layout(inode, mid) + v
    ensures Distinct(Layout(inode, mid) + v) && InDevice(Layout(inode, mid) + v, mid)
  {
    TotalClosedForm(DataBlocks(inode.size));
    TotalClosedForm(DataBlocks(newSize));
    var l := Layout(inode, mid);
    assert v[..|v|] == v;
    forall j | 0 <= j < |v|
      ensures v[j] !in l && InArea(fs, area, v[j])
    {
      assert TakenId(fs, area, before, mid, v[j]);
    }
    DistinctAppend(l, v);
    forall k | 0 <= k < |l + v|
      ensures (l + v)[k] < |mid|
    {
      if k < |l| {
        assert (l + v)[k] in l;
      } else {
        assert (l + v)[k] == v[k - |l|];
      }
    }
  }

  /**
   * `r` is `inode` grown over the device going from `before` to `after`:
   * its layout extends the old one with blocks that were free and are now
   * marked, the old bytes are kept, no bit of the data bitmap was cleared,
   * and every block outside the data bitmap and the new layout is as it was.
   */
  ghost predicate Grew(fs: EasyFileSystem, area: nat, before: seq<Block>, after: seq<Block>, inode: DiskInode, r: DiskInode)
    requires inode.Shaped() && DataBlocks(inode.size) <= MAX_DATA_BLOCKS
    requires r.Shaped() && DataBlocks(r.size) <= MAX_DATA_BLOCKS
  {
    && |after| == |before|
    && Layout(inode, before) <= Layout(r, after)
    && (forall j :: |Layout(inode, before)| <= j < |Layout(r, after)| ==> TakenId(fs, area, before, after, Layout(r, after)[j]))
    && (forall p :: 0 <= p < DataBlocks(inode.size) * BLOCK_SZ ==> ByteAt(r, after, p) == ByteAt(inode, before, p))
    && (forall b: nat :: b < area && IsSet(before, fs.dataBitmap, b) ==> IsSet(after, fs.dataBitmap, b))
    && (forall x: nat :: !(fs.dataBitmap.startBlockId <= x < fs.dataAreaStart) && x !in Layout(r, after) ==>
      Read(after, x) == Read(before, x))
  }

  /** Every block of the grown layout lies in the area and is marked, and the data bitmap is as AllocBlocks left it. */
  lemma GrowOwned(fs: EasyFileSystem, area: nat, inode: DiskInode, before: seq<Block>, mid: seq<Block>, after: seq<Block>,
                  r: DiskInode, v: seq<u32>)
    requires Taken(fs, area, before, mid, v) && Owned(fs, area, mid, inode)
    requires WellFormed(r, after) && Sized(r) && |after| == |mid|
    requires Layout(r, after) == Layout(inode, mid) + v
    requires forall id :: 0 <= id < |after| && id !in Layout(r, after) ==> after[id] == mid[id]
    ensures Fits(fs, area, after) && Owned(fs, area, after, r)
    ensures forall b: nat :: b < area ==> IsSet(after, fs.dataBitmap, b) == IsSet(mid, fs.dataBitmap, b)
    ensures Free(fs, area, after) == Free(fs, area, mid)
  {
    var l := Layout(inode, mid);
    forall x | x in l + v
      ensures InArea(fs, area, x) && IsSet(mid, fs.dataBitmap, x - fs.dataAreaStart)
    {
      if x !in l {
        var j :| 0 <= j < |v| && v[j] == x;
        assert TakenId(fs, area, before, mid, v[j]);
      }
    }
    BitsApart(fs, area, mid, after, Layout(r, after));
  }

  /** The new blocks at the tail of the grown layout were free before and are marked after; no bit was cleared. */
  lemma GrowTaken(fs: EasyFileSystem, area: nat, before: seq<Block>, mid: seq<Block>, after: seq<Block>,
                  l: seq<u32>, lr: seq<u32>, v: seq<u32>)
    requires Taken(fs, area, before, mid, v) && lr == l + v
    requires forall b: nat :: b < area ==> IsSet(after, fs.dataBitmap, b) == IsSet(mid, fs.dataBitmap, b)
    ensures forall b: nat :: b < area && IsSet(before, fs.dataBitmap, b) ==> IsSet(after, fs.dataBitmap, b)
    ensures forall j :: |l| <= j < |lr| ==> TakenId(fs, area, before, after, lr[j])
  {
    forall j | |l| <= j < |lr|
      ensures TakenId(fs, area, before, after, lr[j])
    {
      assert lr[j] == v[j - |l|];
      assert TakenId(fs, area, before, mid, v[j - |l|]);
    }
    forall b: nat | b < area && IsSet(before, fs.dataBitmap, b)
      ensures IsSet(after, fs.dataBitmap, b)
    {
      assert IsSet(mid, fs.dataBitmap, b);
    }
  }

  /** The conclusion of increase_size on the Vfs side: the grown file is owned and Grew holds. */
  lemma GrowDoneVfs(fs: EasyFileSystem, area: nat, inode: DiskInode, before: seq<Block>, mid: seq<Block>, after: seq<Block>,
                    r: DiskInode, v: seq<u32>)
    requires Taken(fs, area, before, mid, v) && Owned(fs, area, mid, inode)
    requires Layout(inode, mid) == Layout(inode, before)
    requires forall p :: 0 <= p < DataBlocks(inode.size) * BLOCK_SZ ==> ByteAt(inode, mid, p) == ByteAt(inode, before, p)
    requires WellFormed(r, after) && Sized(r) && |after| == |mid| && DataBlocks(inode.size) <= DataBlocks(r.size)
    requires Layout(r, after) == Layout(inode, mid) + v
    requires forall id :: 0 <= id < |after| && id !in Layout(r, after) ==> after[id] == mid[id]
    requires forall i :: 0 <= i < DataBlocks(r.size) ==>
      Read(after, BlockId(r, after, i)) == Read(mid, BlockId(r, after, i))
    ensures Fits(fs, area, after) && Owned(fs, area, after, r)
    ensures |Free(fs, area, after)| == |Free(fs, area, before)| - |v|
    ensures Grew(fs, area, before, after, inode, r)
  {
    GrowOwned(fs, area, inode, before, mid, after, r, v);
    GrowTaken(fs, area, before, mid, after, Layout(inode, mid), Layout(r, after), v);
    GrowBytes(inode, before, mid, after, r);
    GrowFrame(fs, before, mid, after, Layout(r, after));
  }


  /** The grown file reads its old bytes at the old positions. */
  lemma GrowBytes(inode: DiskInode, before: seq<Block>, mid: seq<Block>, after: seq<Block>, r: DiskInode)
    requires WellFormed(inode, mid) && WellFormed(r, after) && DataBlocks(inode.size) <= DataBlocks(r.size)
    requires Layout(inode, mid) <= Layout(r, after)
    requires forall p :: 0 <= p < DataBlocks(inode.size) * BLOCK_SZ ==> ByteAt(inode, mid, p) == ByteAt(inode, before, p)
    requires forall i :: 0 <= i < DataBlocks(r.size) ==>
      Read(after, BlockId(r, after, i)) == Read(mid, BlockId(r, after, i))
    ensures forall p :: 0 <= p < DataBlocks(inode.size) * BLOCK_SZ ==> ByteAt(r, after, p) == ByteAt(inode, before, p)
  {
    GrowKeepsIds(inode, mid, r, after);
    forall p | 0 <= p < DataBlocks(inode.size) * BLOCK_SZ
      ensures ByteAt(r, after, p) == ByteAt(inode, before, p)
    {
      assert p / BLOCK_SZ < DataBlocks(inode.size);
    }
  }

  /** Blocks outside the data bitmap and the grown layout are as they were before the allocations. */
  lemma GrowFrame(fs: EasyFileSystem, before: seq<Block>, mid: seq<Block>, after: seq<Block>, lr: seq<u32>)
    requires BitmapOnly(fs, before, mid) && |after| == |mid|
    requires forall id :: 0 <= id < |after| && id !in lr ==> after[id] == mid[id]
    ensures forall x: nat :: !(fs.dataBitmap.startBlockId <= x < fs.dataAreaStart) && x !in lr ==>
      Read(after, x) == Read(before, x)
  {
    forall x: nat | !(fs.dataBitmap.startBlockId <= x < fs.dataAreaStart) && x !in lr
      ensures Read(after, x) == Read(before, x)
    {
      assert Read(after, x) == Read(mid, x);
    }
  }


  /** A file that does not grow Grew trivially. */
  lemma GrewNothing(fs: EasyFileSystem, area: nat, blocks: seq<Block>, inode: DiskInode)
    requires WellFormed(inode, blocks)
    ensures Grew(fs, area, blocks, blocks, inode, inode)
  {
  }

  /**
   * `r` is `inode` grown to at least `newSize` bytes over the device going
   * from `before` to `after`: kind kept, still owned, the free blocks fewer
   * by exactly the blocks it gained, and Grew.
   */
  ghost predicate GrownTo(fs: EasyFileSystem, area: nat, before: seq<Block>, after: seq<Block>,
                          inode: DiskInode, r: DiskInode, newSize: nat)
    requires inode.Shaped() && DataBlocks(inode.size) <= MAX_DATA_BLOCKS
  {
    && r.size as int == (if inode.size as int < newSize then newSize else inode.size as int) && r.kind == inode.kind
    && Fits(fs, area, after) && Owned(fs, area, after, r)
    && |Free(fs, area, after)| + TotalBlocks(r.size) == |Free(fs, area, before)| + TotalBlocks(inode.size)
    && Grew(fs, area, before, after, inode, r)
  }

  /**
   * Inode::increase_size: nothing when `newSize` is not larger than the
   * file; otherwise blocks_num_needed calls of alloc_data, then
   * DiskInode::increase_size with the blocks they returned. The file is
   * then `newSize` bytes long, still owned, its old bytes kept, and the
   * free blocks fewer by exactly the blocks it now occupies in addition.
   * An index past the inode's reach or an exhausted bitmap panics in the
   * source, hence the requires.
   */
  method IncreaseInode(fs: EasyFileSystem, ghost area: nat, inode: DiskInode, newSize: u32, disk: Disk)
    returns (r: DiskInode)
    requires Fits(fs, area, disk.blocks) && Owned(fs, area, disk.blocks, inode)
    requires inode.size < newSize ==> newSize as int <= MAX_FILE_SIZE
    requires inode.size < newSize ==> TotalBlocks(newSize) - TotalBlocks(inode.size) <= |Free(fs, area, disk.blocks)|
    modifies disk
    ensures GrownTo(fs, area, old(disk.blocks), disk.blocks, inode, r, newSize as int)
  {
    if newSize <= inode.size {
      GrewNothing(fs, area, disk.blocks, inode);
      return inode;
    }
    ghost var before := disk.blocks;
    var blocksNeeded := BlocksNumNeeded(inode, newSize);
    TotalClosedForm(DataBlocks(inode.size));
    TotalClosedForm(DataBlocks(newSize));
    TotalMonotone(DataBlocks(inode.size), DataBlocks(newSize));
    var v := AllocBlocks(fs, area, inode, blocksNeeded, disk);
    ghost var mid := disk.blocks;
    GrowReady(fs, area, inode, before, mid, newSize, v);
    r := IncreaseSize(inode, newSize, v, disk);
    GrowDoneVfs(fs, area, inode, before, mid, disk.blocks, r, v);
  }

  /** Writing inside a file's own blocks leaves it owned and the data bitmap as it was. */
  lemma WrittenOwned(fs: EasyFileSystem, area: nat, inode: DiskInode, mid: seq<Block>, blocks: seq<Block>,
                     offset: nat, buf: seq<u8>, upto: nat)
    requires Fits(fs, area, mid) && Owned(fs, area, mid, inode)
    requires Written(inode, mid, blocks, offset, buf, upto)
    ensures Fits(fs, area, blocks) && Owned(fs, area, blocks, inode)
    ensures Free(fs, area, blocks) == Free(fs, area, mid)
    ensures forall b: nat :: b < area ==> IsSet(blocks, fs.dataBitmap, b) == IsSet(mid, fs.dataBitmap, b)
    ensures forall x: nat :: x < fs.dataAreaStart ==> Read(blocks, x) == Read(mid, x)
  {
    var l := Layout(inode, mid);
    forall id | 0 <= id < |blocks| && id !in l
      ensures blocks[id] == mid[id]
    {
      assert Read(blocks, id) == Read(mid, id);
    }
    BitsApart(fs, area, mid, blocks, l);
    forall x: nat | x < fs.dataAreaStart
      ensures Read(blocks, x) == Read(mid, x)
    {
      assert x !in l;
    }
  }

  /** Storing the inode back into its slot leaves the file, the bitmap and every other block as they were. */
  lemma StoredOwned(fs: EasyFileSystem, area: nat, node: Inode, inode: DiskInode, blocks: seq<Block>)
    requires Fits(fs, area, blocks) && Owned(fs, area, blocks, inode) && IsSlot(fs, node)
    ensures node.blockId < |blocks|
    ensures var after := StoreAt(blocks, node, inode);
      && Fits(fs, area, after) && Owned(fs, area, after, inode)
      && Layout(inode, after) == Layout(inode, blocks)
      && Free(fs, area, after) == Free(fs, area, blocks)
      && (forall b: nat :: b < area ==> IsSet(after, fs.dataBitmap, b) == IsSet(blocks, fs.dataBitmap, b))
      && (forall p :: 0 <= p < DataBlocks(inode.size) * BLOCK_SZ ==> ByteAt(inode, after, p) == ByteAt(inode, blocks, p))
  {
    var after := StoreAt(blocks, node, inode);
    var l := Layout(inode, blocks);
    assert node.blockId !in l;
    forall id | 0 <= id < |after| && id !in [node.blockId as u32]
      ensures after[id] == blocks[id]
    {
      assert Read(after, id) == Read(blocks, id);
    }
    forall y | y in l
      ensures Read(after, y) == Read(blocks, y)
    {
    }
    SameContents(inode, blocks, after);
    forall b: nat | b < area
      ensures IsSet(after, fs.dataBitmap, b) == IsSet(blocks, fs.dataBitmap, b)
    {
      assert b / BLOCK_BITS < fs.dataBitmap.blocks;
    }
    assert Free(fs, area, after) == Free(fs, area, blocks);
  }

  /** Free blocks enough for a file to grow to `newSize`. */
  ghost predicate Room(fs: EasyFileSystem, area: nat, blocks: seq<Block>, inode: DiskInode, newSize: u32) {
    inode.size < newSize ==> TotalBlocks(newSize) - TotalBlocks(inode.size) <= |Free(fs, area, blocks)|
  }

  /**
   * The inode in slot `node` went from `before` to `after` by growing to
   * at least `newSize` bytes: the file is still owned, its kind kept, the
   * free blocks fewer by the blocks it gained, no data-bitmap bit cleared,
   * every other inode slot as it was, and every block outside the data
   * bitmap, the slot's block and the file's layout as it was.
   */
  ghost predicate Updated(fs: EasyFileSystem, area: nat, before: seq<Block>, after: seq<Block>, node: Inode, newSize: nat)
    requires Aligned(node)
  {
    var inode := DiskInodeOf(before, node);
    var r := DiskInodeOf(after, node);
    (&& |after| == |before| && Fits(fs, area, after) && Owned(fs, area, after, r)
     && r.size as int == (if inode.size as int < newSize then newSize else inode.size as int) && r.kind == inode.kind
     && |Free(fs, area, after)| + TotalBlocks(r.size) == |Free(fs, area, before)| + TotalBlocks(inode.size)
     && (forall b: nat {:trigger IsSet(before, fs.dataBitmap, b)} :: b < area && IsSet(before, fs.dataBitmap, b) ==> IsSet(after, fs.dataBitmap, b))
     && (forall other {:trigger DiskInodeOf(after, other)} :: IsSlot(fs, other) && other != node ==> DiskInodeOf(after, other) == DiskInodeOf(before, other))
     && (forall x: nat {:trigger Read(after, x)} :: !(fs.dataBitmap.startBlockId <= x < fs.dataAreaStart) && x != node.blockId && x !in Layout(r, after) ==>
       Read(after, x) == Read(before, x))) == true
  }

  /** Slots of the inode area read the same once the grown file is written and stored. */
  lemma SlotsKept(fs: EasyFileSystem, area: nat, node: Inode, before: seq<Block>, mid: seq<Block>, written: seq<Block>,
                  inode: DiskInode, r: DiskInode)
    requires IsSlot(fs, node) && Fits(fs, area, mid) && Owned(fs, area, mid, r)
    requires WellFormed(inode, before) && DataBlocks(inode.size) <= DataBlocks(r.size) && Grew(fs, area, before, mid, inode, r)
    requires node.blockId < |written| && forall x: nat :: x < fs.dataAreaStart ==> Read(written, x) == Read(mid, x)
    ensures forall other :: IsSlot(fs, other) && other != node ==>
      DiskInodeOf(StoreAt(written, node, r), other) == DiskInodeOf(before, other)
  {
    forall other | IsSlot(fs, other) && other != node
      ensures DiskInodeOf(StoreAt(written, node, r), other) == DiskInodeOf(before, other)
    {
      assert other.blockId !in Layout(r, mid);
      assert Read(written, other.blockId) == Read(mid, other.blockId) == Read(before, other.blockId);
    }
  }

  /** Blocks outside the bitmap, the slot's block and the layout are as they were. */
  lemma BlocksKept(fs: EasyFileSystem, area: nat, node: Inode, before: seq<Block>, mid: seq<Block>, written: seq<Block>,
                   after: seq<Block>, inode: DiskInode, r: DiskInode, offset: nat, buf: seq<u8>)
    requires WellFormed(inode, before) && WellFormed(r, mid) && Sized(r) && DataBlocks(inode.size) <= DataBlocks(r.size)
    requires Grew(fs, area, before, mid, inode, r) && Written(r, mid, written, offset, buf, offset + |buf|)
    requires |after| == |written| && forall b :: b != node.blockId ==> Read(after, b) == Read(written, b)
    requires WellFormed(r, after) && Layout(r, after) == Layout(r, written)
    ensures forall x: nat :: !(fs.dataBitmap.startBlockId <= x < fs.dataAreaStart) && x != node.blockId && x !in Layout(r, after) ==>
      Read(after, x) == Read(before, x)
  {
  }

  /** The file's bytes after the write: the buffer over its range, the old bytes elsewhere. */
  lemma BytesAfterWrite(before: seq<Block>, mid: seq<Block>, written: seq<Block>, after: seq<Block>,
                        inode: DiskInode, r: DiskInode, offset: nat, buf: seq<u8>)
    requires WellFormed(inode, before) && Sized(inode) && WellFormed(r, mid) && Sized(r)
    requires DataBlocks(inode.size) <= DataBlocks(r.size) && offset + |buf| <= r.size as int
    requires forall p :: 0 <= p < DataBlocks(inode.size) * BLOCK_SZ ==> ByteAt(r, mid, p) == ByteAt(inode, before, p)
    requires Written(r, mid, written, offset, buf, offset + |buf|)
    requires forall p :: 0 <= p < DataBlocks(r.size) * BLOCK_SZ ==> ByteAt(r, after, p) == ByteAt(r, written, p)
    ensures forall p :: offset <= p < offset + |buf| ==> ByteAt(r, after, p) == buf[p - offset]
    ensures forall p :: 0 <= p < inode.size as int && !(offset <= p < offset + |buf|) ==>
      ByteAt(r, after, p) == ByteAt(inode, before, p)
  {
    forall p | offset <= p < offset + |buf|
      ensures ByteAt(r, after, p) == buf[p - offset]
    {
      assert p < DataBlocks(r.size) * BLOCK_SZ;
    }
    forall p | 0 <= p < inode.size as int && !(offset <= p < offset + |buf|)
      ensures ByteAt(r, after, p) == ByteAt(inode, before, p)
    {
      assert p < DataBlocks(inode.size) * BLOCK_SZ;
      assert DataBlocks(inode.size) * BLOCK_SZ <= DataBlocks(r.size) * BLOCK_SZ;
    }
  }

  /**
   * Inode::write_at: under modify_disk_inode, grows the file to
   * `offset + |buf|` bytes, writes the buffer there, and leaves the inode
   * in its slot. Every byte of the buffer is written, the rest of the old
   * contents stays, and Updated describes the device around the file. A
   * write starting past what the inode can index panics in the source.
   */
  method WriteAtNode(fs: EasyFileSystem, ghost area: nat, node: Inode, offset: nat, buf: seq<u8>, disk: Disk)
    returns (n: nat)
    requires Fits(fs, area, disk.blocks) && IsSlot(fs, node) && Owned(fs, area, disk.blocks, DiskInodeOf(disk.blocks, node))
    requires offset < MAX_FILE_SIZE && offset + |buf| <= MAX_FILE_SIZE
    requires Room(fs, area, disk.blocks, DiskInodeOf(disk.blocks, node), offset + |buf|)
    modifies disk
    ensures n == |buf|
    ensures Updated(fs, area, old(disk.blocks), disk.blocks, node, offset + |buf|)
    ensures forall p :: offset <= p < offset + |buf| ==> ByteAt(DiskInodeOf(disk.blocks, node), disk.blocks, p) == buf[p - offset]
    ensures forall p :: 0 <= p < DiskInodeOf(old(disk.blocks), node).size as int && !(offset <= p < offset + |buf|) ==>
      ByteAt(DiskInodeOf(disk.blocks, node), disk.blocks, p) == ByteAt(DiskInodeOf(old(disk.blocks), node), old(disk.blocks), p)
  {
    ghost var before := disk.blocks;
    var inode := DiskInodeOf(disk.blocks, node);
    var r;
    ghost var mid;
    r, n, mid := GrowAndWrite(fs, area, inode, offset, buf, disk);
    WriteDone(fs, area, node, before, mid, disk.blocks, inode, r, offset, buf);
    disk.blocks := StoreAt(disk.blocks, node, r);
  }

  /** The body of write_at's closure: increase_size to `offset + |buf|`, then DiskInode::write_at. */
  method GrowAndWrite(fs: EasyFileSystem, ghost area: nat, inode: DiskInode, offset: nat, buf: seq<u8>, disk: Disk)
    returns (r: DiskInode, n: nat, ghost mid: seq<Block>)
    requires Fits(fs, area, disk.blocks) && Owned(fs, area, disk.blocks, inode)
    requires offset < MAX_FILE_SIZE && offset + |buf| <= MAX_FILE_SIZE
    requires Room(fs, area, disk.blocks, inode, offset + |buf|)
    modifies disk
    ensures n == |buf|
    ensures GrownTo(fs, area, old(disk.blocks), mid, inode, r, offset + |buf|)
    ensures Written(r, mid, disk.blocks, offset, buf, offset + |buf|)
  {
    var newSize := (offset + |buf|) as u32;
    assert newSize as int == offset + |buf| && Room(fs, area, disk.blocks, inode, newSize);
    r := IncreaseInode(fs, area, inode, newSize, disk);
    mid := disk.blocks;
    GrownToWrite(fs, area, inode, r, mid, offset, |buf|);
    n := WriteAt(r, offset, buf, disk);
  }

  /** A file grown to cover `offset + len` bytes can take that write. */
  lemma GrownToWrite(fs: EasyFileSystem, area: nat, inode: DiskInode, r: DiskInode, blocks: seq<Block>,
                     offset: nat, len: nat)
    requires Owned(fs, area, blocks, r) && offset < MAX_FILE_SIZE
    requires offset + len <= r.size as int
    ensures WellFormed(r, blocks) && Sized(r)
    ensures offset + len < USIZE_LIMIT && offset <= r.size as int && offset / BLOCK_SZ < MAX_DATA_BLOCKS
  {
  }

  /** The state write_at leaves: the grown file written and stored back into its slot. */
  lemma WriteDone(fs: EasyFileSystem, area: nat, node: Inode, before: seq<Block>, mid: seq<Block>, written: seq<Block>,
                  inode: DiskInode, r: DiskInode, offset: nat, buf: seq<u8>)
    requires IsSlot(fs, node) && Fits(fs, area, before) && Owned(fs, area, before, inode) && inode == DiskInodeOf(before, node)
    requires GrownTo(fs, area, before, mid, inode, r, offset + |buf|)
    requires Written(r, mid, written, offset, buf, offset + |buf|)
    ensures node.blockId < |written|
    ensures Updated(fs, area, before, StoreAt(written, node, r), node, offset + |buf|)
    ensures var after := StoreAt(written, node, r);
      && (forall p :: offset <= p < offset + |buf| ==> ByteAt(DiskInodeOf(after, node), after, p) == buf[p - offset])
      && (forall p :: 0 <= p < inode.size as int && !(offset <= p < offset + |buf|) ==>
        ByteAt(DiskInodeOf(after, node), after, p) == ByteAt(inode, before, p))
  {
    WrittenOwned(fs, area, r, mid, written, offset, buf, offset + |buf|);
    StoredOwned(fs, area, node, r, written);
    SlotsKept(fs, area, node, before, mid, written, inode, r);
    var after := StoreAt(written, node, r);
    BlocksKept(fs, area, node, before, mid, written, after, inode, r, offset, buf);
    BytesAfterWrite(before, mid, written, after, inode, r, offset, buf);
  }

  /**
   * Inode::read_at: DiskInode::read_at on the inode in slot `node`. The
   * device is not changed.
   */
  method ReadAtNode(node: Inode, offset: nat, buf: array<u8>, disk: Disk) returns (n: nat)
    requires Aligned(node) && Sized(DiskInodeOf(disk.blocks, node)) && offset + buf.Length < USIZE_LIMIT
    modifies buf
    ensures var inode := DiskInodeOf(disk.blocks, node);
      && n == (if offset < inode.size as int then Min(offset + buf.Length, inode.size as int) - offset else 0)
      && forall i :: 0 <= i < n ==> offset + i < inode.size as int && buf[i] == ByteAt(inode, disk.blocks, offset + i)
    ensures forall i :: n <= i < buf.Length ==> buf[i] == old(buf[i])
  {
    var inode := DiskInodeOf(disk.blocks, node);
    n := ReadAt(inode, offset, buf, disk.blocks);
  }

  /** write_at followed by read_at over the same range gives the written bytes back. */
  method WriteThenRead(fs: EasyFileSystem, ghost area: nat, node: Inode, offset: nat, data: seq<u8>, disk: Disk, buf: array<u8>)
    returns (n: nat)
    requires Fits(fs, area, disk.blocks) && IsSlot(fs, node) && Owned(fs, area, disk.blocks, DiskInodeOf(disk.blocks, node))
    requires offset < MAX_FILE_SIZE && offset + |data| <= MAX_FILE_SIZE
    requires Room(fs, area, disk.blocks, DiskInodeOf(disk.blocks, node), offset + |data|)
    requires buf.Length == |data|
    modifies disk, buf
    ensures n == |data| && buf[..] == data
  {
    var written := WriteAtNode(fs, area, node, offset, data, disk);
    n := ReadAtNode(node, offset, buf, disk);
    assert buf[..] == data;
  }

  /** Freeing a marked bit of the data bitmap adds it, and only it, to the free set. */
  lemma GiveFree(fs: EasyFileSystem, area: nat, blocks: seq<Block>, bit: nat)
    requires Fits(fs, area, blocks) && bit < area && IsSet(blocks, fs.dataBitmap, bit)
    ensures fs.dataBitmap.startBlockId <= Holder(fs.dataBitmap, bit) < fs.dataAreaStart
    ensures Holder(fs.dataBitmap, bit) < |blocks|
    ensures var after := Marked(blocks, fs.dataBitmap, bit, false);
      && |Free(fs, area, after)| == |Free(fs, area, blocks)| + 1
      && forall b: nat :: b < area ==> IsSet(after, fs.dataBitmap, b) == (b != bit && IsSet(blocks, fs.dataBitmap, b))
  {
    var bm := fs.dataBitmap;
    var after := Marked(blocks, bm, bit, false);
    forall b: nat
      ensures IsSet(after, bm, b) == (b != bit && IsSet(blocks, bm, b))
    {
      MarkedIsSet(blocks, bm, bit, false, b);
    }
    assert Free(fs, area, after) == Free(fs, area, blocks) + {bit};
    assert bit !in Free(fs, area, blocks);
  }

  /** Zeroing a block of the data area leaves the data bitmap as it was. */
  lemma ZeroedBits(fs: EasyFileSystem, area: nat, blocks: seq<Block>, id: u32)
    requires Fits(fs, area, blocks) && InArea(fs, area, id)
    ensures Fits(fs, area, Zeroed(blocks, id))
    ensures forall b: nat :: b < area ==> IsSet(Zeroed(blocks, id), fs.dataBitmap, b) == IsSet(blocks, fs.dataBitmap, b)
    ensures Free(fs, area, Zeroed(blocks, id)) == Free(fs, area, blocks)
  {
    BitsApart(fs, area, blocks, Zeroed(blocks, id), [id]);
  }

  /**
   * The first `i` blocks of `v` are freed: zeroed and their bits clear;
   * the other bits are as in `before`, the free set grew by `i`, and only
   * those blocks and data-bitmap blocks changed.
   */
  ghost predicate Released(fs: EasyFileSystem, area: nat, before: seq<Block>, blocks: seq<Block>, v: seq<u32>, i: nat)
    requires i <= |v|
  {
    (&& |blocks| == |before| && Fits(fs, area, blocks)
     && ZeroedUpTo(fs, area, blocks, v, i)
     && BitsCleared(fs, area, before, blocks, v, i)
     && |Free(fs, area, blocks)| == |Free(fs, area, before)| + i
     && KeptBut(fs, before, blocks, v, i)) == true
  }

  /** The first `i` blocks of `v` are in the data area and read as zeros. */
  ghost predicate ZeroedUpTo(fs: EasyFileSystem, area: nat, blocks: seq<Block>, v: seq<u32>, i: nat)
    requires i <= |v|
  {
    forall j :: 0 <= j < i ==> InArea(fs, area, v[j]) && Read(blocks, v[j]) == ZeroBlock()
  }

  /** The data bits of the first `i` blocks of `v` are clear, the others as in `before`. */
  ghost predicate BitsCleared(fs: EasyFileSystem, area: nat, before: seq<Block>, blocks: seq<Block>, v: seq<u32>, i: nat)
    requires i <= |v|
  {
    forall b: nat {:trigger IsSet(blocks, fs.dataBitmap, b)} :: b < area ==>
      IsSet(blocks, fs.dataBitmap, b) == (IsSet(before, fs.dataBitmap, b) && b + fs.dataAreaStart !in v[..i])
  }

  /** Outside the data bitmap, only the first `i` blocks of `v` changed. */
  ghost predicate KeptBut(fs: EasyFileSystem, before: seq<Block>, blocks: seq<Block>, v: seq<u32>, i: nat)
    requires i <= |v|
  {
    forall x: nat :: !(fs.dataBitmap.startBlockId <= x < fs.dataAreaStart) && x !in v[..i] ==> Read(blocks, x) == Read(before, x)
  }

  /** Blocks a file may release: distinct, in the area and marked in use. */
  ghost predicate Releasable(fs: EasyFileSystem, area: nat, before: seq<Block>, v: seq<u32>) {
    Distinct(v) && forall j :: 0 <= j < |v| ==> InArea(fs, area, v[j]) && IsSet(before, fs.dataBitmap, v[j] - fs.dataAreaStart)
  }

  /** The bitmap half of one dealloc_data step. */
  lemma ReleasedBits(fs: EasyFileSystem, area: nat, before: seq<Block>, cur: seq<Block>, after: seq<Block>,
                     v: seq<u32>, i: nat)
    requires i < |v| && InArea(fs, area, v[i]) && BitsCleared(fs, area, before, cur, v, i)
    requires forall b: nat :: b < area ==> IsSet(after, fs.dataBitmap, b) == (b != v[i] - fs.dataAreaStart && IsSet(cur, fs.dataBitmap, b))
    ensures BitsCleared(fs, area, before, after, v, i + 1)
  {
    var bm := fs.dataBitmap;
    assert v[..i + 1] == v[..i] + [v[i]];
    forall b: nat | b < area
      ensures IsSet(after, bm, b) == (IsSet(before, bm, b) && b + fs.dataAreaStart !in v[..i + 1])
    {
      assert (b + fs.dataAreaStart in v[..i + 1]) == (b + fs.dataAreaStart in v[..i] || b == v[i] - fs.dataAreaStart);
    }
  }

  /** The block half of one dealloc_data step. */
  lemma ReleasedBlocks(fs: EasyFileSystem, area: nat, before: seq<Block>, cur: seq<Block>, after: seq<Block>,
                       v: seq<u32>, i: nat)
    requires i < |v| && InArea(fs, area, v[i]) && v[i] !in v[..i]
    requires ZeroedUpTo(fs, area, cur, v, i) && KeptBut(fs, before, cur, v, i)
    requires Read(after, v[i]) == ZeroBlock()
    requires forall x :: x != v[i] && !(fs.dataBitmap.startBlockId <= x < fs.dataAreaStart) ==> Read(after, x) == Read(cur, x)
    ensures ZeroedUpTo(fs, area, after, v, i + 1) && KeptBut(fs, before, after, v, i + 1)
  {
    assert v[..i + 1] == v[..i] + [v[i]];
    forall j | 0 <= j < i
      ensures Read(after, v[j]) == ZeroBlock()
    {
      assert v[j] in v[..i];
    }
    forall x: nat | !(fs.dataBitmap.startBlockId <= x < fs.dataAreaStart) && x !in v[..i + 1]
      ensures Read(after, x) == Read(before, x)
    {
      assert x !in v[..i];
    }
  }

  /**
   * `after` is `cur` with block `id` freed: zeroed, its bit clear, one more
   * free bit, and nothing else outside the data bitmap changed.
   */
  ghost predicate Freed(fs: EasyFileSystem, area: nat, cur: seq<Block>, after: seq<Block>, id: u32)
    requires fs.dataAreaStart <= id
  {
    (&& |after| == |cur| && Fits(fs, area, after) && Read(after, id) == ZeroBlock()
     && |Free(fs, area, after)| == |Free(fs, area, cur)| + 1
     && (forall b: nat {:trigger IsSet(after, fs.dataBitmap, b)} :: b < area ==>
           IsSet(after, fs.dataBitmap, b) == (b != id - fs.dataAreaStart && IsSet(cur, fs.dataBitmap, b)))
     && (forall x :: x != id && !(fs.dataBitmap.startBlockId <= x < fs.dataAreaStart) ==> Read(after, x) == Read(cur, x))) == true
  }

  /** Where dealloc_data's bit lives: a data-bitmap block on the device. */
  lemma DeallocHolder(fs: EasyFileSystem, area: nat, cur: seq<Block>, id: u32)
    requires Fits(fs, area, cur) && InArea(fs, area, id)
    ensures fs.dataBitmap.startBlockId <= Holder(fs.dataBitmap, id - fs.dataAreaStart) < fs.dataAreaStart
    ensures Holder(fs.dataBitmap, id - fs.dataAreaStart) < |cur|
    ensures var after := Marked(Zeroed(cur, id), fs.dataBitmap, id - fs.dataAreaStart, false);
      |after| == |cur| && Fits(fs, area, after)
  {
    var bit: nat := id - fs.dataAreaStart;
    assert bit / BLOCK_BITS < fs.dataBitmap.blocks;
  }

  /** The bitmap half of dealloc_data: one more free bit, the others kept. */
  lemma DeallocBits(fs: EasyFileSystem, area: nat, cur: seq<Block>, id: u32)
    requires Fits(fs, area, cur) && InArea(fs, area, id)
    requires IsSet(Zeroed(cur, id), fs.dataBitmap, id - fs.dataAreaStart)
    requires Holder(fs.dataBitmap, id - fs.dataAreaStart) < |cur|
    ensures forall b: nat :: b < area ==>
      IsSet(Marked(Zeroed(cur, id), fs.dataBitmap, id - fs.dataAreaStart, false), fs.dataBitmap, b) ==
        (b != id - fs.dataAreaStart && IsSet(cur, fs.dataBitmap, b))
  {
    forall b: nat | b < area
      ensures IsSet(Marked(Zeroed(cur, id), fs.dataBitmap, id - fs.dataAreaStart, false), fs.dataBitmap, b) ==
        (b != id - fs.dataAreaStart && IsSet(cur, fs.dataBitmap, b))
    {
      DeallocBit(fs, area, cur, id, b);
    }
  }

  /** Bit b of the data bitmap after dealloc_data. */
  lemma DeallocBit(fs: EasyFileSystem, area: nat, cur: seq<Block>, id: u32, b: nat)
    requires Fits(fs, area, cur) && InArea(fs, area, id)
    requires IsSet(Zeroed(cur, id), fs.dataBitmap, id - fs.dataAreaStart)
    requires Holder(fs.dataBitmap, id - fs.dataAreaStart) < |cur| && b < area
    ensures IsSet(Marked(Zeroed(cur, id), fs.dataBitmap, id - fs.dataAreaStart, false), fs.dataBitmap, b) ==
      (b != id - fs.dataAreaStart && IsSet(cur, fs.dataBitmap, b))
  {
    MarkedIsSet(Zeroed(cur, id), fs.dataBitmap, id - fs.dataAreaStart, false, b);
    ZeroedBit(fs, area, cur, id, b);
  }

  /** Zeroing a data block leaves bit `b` of the data bitmap as it was. */
  lemma ZeroedBit(fs: EasyFileSystem, area: nat, cur: seq<Block>, id: u32, b: nat)
    requires Fits(fs, area, cur) && InArea(fs, area, id) && b < area
    ensures IsSet(Zeroed(cur, id), fs.dataBitmap, b) == IsSet(cur, fs.dataBitmap, b)
  {
    assert b / BLOCK_BITS < fs.dataBitmap.blocks;
  }

  /** The free count of dealloc_data: one more free bit. */
  lemma DeallocCount(fs: EasyFileSystem, area: nat, cur: seq<Block>, id: u32)
    requires Fits(fs, area, cur) && InArea(fs, area, id)
    requires IsSet(Zeroed(cur, id), fs.dataBitmap, id - fs.dataAreaStart)
    requires Holder(fs.dataBitmap, id - fs.dataAreaStart) < |cur|
    ensures var after := Marked(Zeroed(cur, id), fs.dataBitmap, id - fs.dataAreaStart, false);
      |Free(fs, area, after)| == |Free(fs, area, cur)| + 1
  {
    var bit: nat := id - fs.dataAreaStart;
    var zeroed := Zeroed(cur, id);
    ZeroedBits(fs, area, cur, id);
    GiveFree(fs, area, zeroed, bit);
  }

  /** The block half of dealloc_data: block `id` zeroed, nothing else outside the data bitmap changed. */
  lemma DeallocBlocks(fs: EasyFileSystem, cur: seq<Block>, id: u32, h: nat)
    requires fs.dataBitmap.startBlockId <= h < fs.dataAreaStart <= id && h < |cur|
    ensures var after := Zeroed(cur, id)[h := WithBit(Zeroed(cur, id)[h], (id - fs.dataAreaStart) % BLOCK_BITS, false)];
      && Read(after, id) == ZeroBlock()
      && forall x :: x != id && !(fs.dataBitmap.startBlockId <= x < fs.dataAreaStart) ==> Read(after, x) == Read(cur, x)
  {
  }

  /** dealloc_data of block `id` changes only that block and a data-bitmap block. */
  lemma DeallocFrame(fs: EasyFileSystem, area: nat, cur: seq<Block>, id: u32)
    requires Fits(fs, area, cur) && InArea(fs, area, id)
    requires IsSet(Zeroed(cur, id), fs.dataBitmap, id - fs.dataAreaStart)
    ensures Holder(fs.dataBitmap, id - fs.dataAreaStart) < |cur|
    ensures Freed(fs, area, cur, Marked(Zeroed(cur, id), fs.dataBitmap, id - fs.dataAreaStart, false), id)
  {
    DeallocHolder(fs, area, cur, id);
    DeallocBits(fs, area, cur, id);
    DeallocCount(fs, area, cur, id);
    DeallocBlocks(fs, cur, id, Holder(fs.dataBitmap, id - fs.dataAreaStart));
  }

  /** The state after one dealloc_data step, from the facts DeallocFrame gives about it. */
  lemma ReleasedNext(fs: EasyFileSystem, area: nat, before: seq<Block>, cur: seq<Block>, after: seq<Block>,
                     v: seq<u32>, i: nat)
    requires i < |v| && InArea(fs, area, v[i]) && v[i] !in v[..i] && Released(fs, area, before, cur, v, i)
    requires Freed(fs, area, cur, after, v[i])
    ensures Released(fs, area, before, after, v, i + 1)
  {
    ReleasedBits(fs, area, before, cur, after, v, i);
    ReleasedBlocks(fs, area, before, cur, after, v, i);
  }

  /** Before the next dealloc_data step: the block is new to the loop, in the area and still marked. */
  lemma ReleaseReady(fs: EasyFileSystem, area: nat, before: seq<Block>, cur: seq<Block>, v: seq<u32>, i: nat)
    requires i < |v| && Releasable(fs, area, before, v) && Released(fs, area, before, cur, v, i)
    ensures v[i] !in v[..i] && InArea(fs, area, v[i]) && Fits(fs, area, cur)
    ensures IsSet(Zeroed(cur, v[i]), fs.dataBitmap, v[i] - fs.dataAreaStart)
  {
    var bit: nat := v[i] - fs.dataAreaStart;
    forall j | 0 <= j < i ensures v[j] != v[i] { }
    assert IsSet(before, fs.dataBitmap, bit) && BitsCleared(fs, area, before, cur, v, i);
    ZeroedBit(fs, area, cur, v[i], bit);
  }

  /** One dealloc_data call of Inode::clear's loop. */
  method ReleaseOne(fs: EasyFileSystem, ghost area: nat, ghost before: seq<Block>, v: seq<u32>, i: nat, disk: Disk)
    requires i < |v| && Releasable(fs, area, before, v) && Released(fs, area, before, disk.blocks, v, i)
    modifies disk
    ensures Released(fs, area, before, disk.blocks, v, i + 1)
  {
    ghost var cur := disk.blocks;
    ReleaseReady(fs, area, before, cur, v, i);
    DeallocHolder(fs, area, cur, v[i]);
    DeallocData(fs, disk, v[i]);
    ReleaseStep(fs, area, before, cur, disk.blocks, v, i);
  }

  /** dealloc_data of the next block of `v` releases one more block. */
  lemma ReleaseStep(fs: EasyFileSystem, area: nat, before: seq<Block>, cur: seq<Block>, after: seq<Block>,
                    v: seq<u32>, i: nat)
    requires i < |v| && Releasable(fs, area, before, v) && Released(fs, area, before, cur, v, i)
    requires after == Marked(Zeroed(cur, v[i]), fs.dataBitmap, v[i] - fs.dataAreaStart, false)
    ensures Released(fs, area, before, after, v, i + 1)
  {
    ReleaseReady(fs, area, before, cur, v, i);
    DeallocFrame(fs, area, cur, v[i]);
    ReleasedNext(fs, area, before, cur, after, v, i);
  }

  /** Nothing released yet. */
  lemma ReleasedNone(fs: EasyFileSystem, area: nat, before: seq<Block>, v: seq<u32>)
    requires Fits(fs, area, before)
    ensures Released(fs, area, before, before, v, 0)
  {
    assert v[..0] == [];
  }

  /** The blocks of an owned file may be released. */
  lemma OwnedReleasable(fs: EasyFileSystem, area: nat, before: seq<Block>, inode: DiskInode)
    requires Owned(fs, area, before, inode)
    ensures Releasable(fs, area, before, Layout(inode, before))
  {
    var v := Layout(inode, before);
    forall j | 0 <= j < |v|
      ensures InArea(fs, area, v[j]) && IsSet(before, fs.dataBitmap, v[j] - fs.dataAreaStart)
    {
      assert v[j] in v;
    }
  }

  /** The loop of Inode::clear: dealloc_data on every block of `v`, in order. */
  method ReleaseBlocks(fs: EasyFileSystem, ghost area: nat, v: seq<u32>, disk: Disk)
    requires Fits(fs, area, disk.blocks) && Releasable(fs, area, disk.blocks, v)
    modifies disk
    ensures Released(fs, area, old(disk.blocks), disk.blocks, v, |v|)
  {
    ghost var before := disk.blocks;
    ReleasedNone(fs, area, before, v);
    var i := 0;
    while i < |v|
      invariant i <= |v| && Released(fs, area, before, disk.blocks, v, i)
    {
      ReleaseOne(fs, area, before, v, i, disk);
      i := i + 1;
    }
  }

  /**
   * The inode in slot `node` went from `before` to `after` by being
   * cleared: size 0 with its kind kept, every block the file used zeroed
   * and its bit cleared, the free count up by all of them, every other
   * inode slot as it was, and every other block outside the data bitmap
   * and the slot's block as it was.
   */
  ghost predicate Cleared(fs: EasyFileSystem, area: nat, before: seq<Block>, after: seq<Block>, node: Inode)
    requires Aligned(node)
  {
    var inode := DiskInodeOf(before, node);
    var r := DiskInodeOf(after, node);
    && WellFormed(inode, before)
    && |after| == |before| && Fits(fs, area, after) && Owned(fs, area, after, r)
    && r.size == 0 && r.kind == inode.kind
    && |Free(fs, area, after)| == |Free(fs, area, before)| + TotalBlocks(inode.size)
    && Wiped(fs, area, before, after, node, Layout(inode, before))
  }

  /**
   * The blocks of `v` were given back between `before` and `after`: they
   * read as zeros and their bits are clear, every other bit is as it was,
   * and so are every other inode slot and every block outside `v`, the
   * data bitmap and the slot's block.
   */
  ghost predicate Wiped(fs: EasyFileSystem, area: nat, before: seq<Block>, after: seq<Block>, node: Inode, v: seq<u32>) {
    && (forall x :: x in v ==> Read(after, x) == ZeroBlock())
    && (forall b: nat :: b < area ==>
          IsSet(after, fs.dataBitmap, b) == (IsSet(before, fs.dataBitmap, b) && b + fs.dataAreaStart !in v))
    && (forall other :: IsSlot(fs, other) && other != node ==> DiskInodeOf(after, other) == DiskInodeOf(before, other))
    && (forall x: nat :: (!(fs.dataBitmap.startBlockId <= x < fs.dataAreaStart) && x != node.blockId
          && x !in v) ==> Read(after, x) == Read(before, x))
  }


  /** Storing an inode changes no data-bitmap bit. */
  lemma StoredBits(fs: EasyFileSystem, area: nat, node: Inode, blocks: seq<Block>, r: DiskInode)
    requires IsSlot(fs, node) && Fits(fs, area, blocks) && r.Shaped()
    ensures node.blockId < |blocks|
    ensures var after := StoreAt(blocks, node, r);
      && Fits(fs, area, after) && Free(fs, area, after) == Free(fs, area, blocks)
      && forall b: nat :: b < area ==> IsSet(after, fs.dataBitmap, b) == IsSet(blocks, fs.dataBitmap, b)
  {
    var after := StoreAt(blocks, node, r);
    forall b: nat | b < area
      ensures IsSet(after, fs.dataBitmap, b) == IsSet(blocks, fs.dataBitmap, b)
    {
      assert b / BLOCK_BITS < fs.dataBitmap.blocks;
    }
    assert Free(fs, area, after) == Free(fs, area, blocks);
  }

  /** The released blocks read as zeros, and the others outside the bitmap and the slot's block as before. */
  lemma ClearedBlocks(fs: EasyFileSystem, area: nat, node: Inode, before: seq<Block>, released: seq<Block>,
                      v: seq<u32>, r: DiskInode)
    requires IsSlot(fs, node) && Fits(fs, area, released) && node.blockId < |released| && r.Shaped()
    requires ZeroedUpTo(fs, area, released, v, |v|) && KeptBut(fs, before, released, v, |v|)
    requires BitsCleared(fs, area, before, released, v, |v|)
    requires forall b: nat :: b < area ==> IsSet(StoreAt(released, node, r), fs.dataBitmap, b) == IsSet(released, fs.dataBitmap, b)
    ensures Wiped(fs, area, before, StoreAt(released, node, r), node, v)
  {
    assert v[..|v|] == v;
    var after := StoreAt(released, node, r);
    forall x | x in v
      ensures Read(after, x) == ZeroBlock()
    {
      var j :| 0 <= j < |v| && v[j] == x;
      assert InArea(fs, area, v[j]);
    }
    forall other | IsSlot(fs, other) && other != node
      ensures DiskInodeOf(after, other) == DiskInodeOf(before, other)
    {
      forall j | 0 <= j < |v|
        ensures v[j] != other.blockId
      {
        assert InArea(fs, area, v[j]);
      }
      assert Read(released, other.blockId) == Read(before, other.blockId);
      assert DiskInodeOf(released, other) == DiskInodeOf(before, other);
    }
  }

  /** Storing the emptied inode after the loop gives Cleared. */
  lemma ClearDone(fs: EasyFileSystem, area: nat, node: Inode, before: seq<Block>, released: seq<Block>, r: DiskInode)
    requires IsSlot(fs, node) && WellFormed(DiskInodeOf(before, node), before)
    requires r.Shaped() && r.size == 0 && r.kind == DiskInodeOf(before, node).kind
    requires var v := Layout(DiskInodeOf(before, node), before);
      |v| == TotalBlocks(DiskInodeOf(before, node).size) && Released(fs, area, before, released, v, |v|)
    ensures node.blockId < |released|
    ensures Cleared(fs, area, before, StoreAt(released, node, r), node)
  {
    var inode := DiskInodeOf(before, node);
    var v := Layout(inode, before);
    StoredBits(fs, area, node, released, r);
    var after := StoreAt(released, node, r);
    ClearedBlocks(fs, area, node, before, released, v, r);
    EmptyOwned(fs, area, after, r);
  }

  /** An empty file owns nothing and is owned by any file system. */
  lemma EmptyOwned(fs: EasyFileSystem, area: nat, blocks: seq<Block>, r: DiskInode)
    requires r.Shaped() && r.size == 0
    ensures Layout(r, blocks) == [] && Owned(fs, area, blocks, r)
  {
  }

  /**
   * Inode::clear: under modify_disk_inode, clear_size empties the inode
   * and every block it used is given back with dealloc_data, in the order
   * clear_size lists them; the emptied inode stays in its slot.
   */
  method ClearNode(fs: EasyFileSystem, ghost area: nat, node: Inode, disk: Disk)
    requires Fits(fs, area, disk.blocks) && IsSlot(fs, node) && Owned(fs, area, disk.blocks, DiskInodeOf(disk.blocks, node))
    modifies disk
    ensures Cleared(fs, area, old(disk.blocks), disk.blocks, node)
  {
    ghost var before := disk.blocks;
    var inode := DiskInodeOf(disk.blocks, node);
    var r, v := ClearSize(inode, disk.blocks);
    OwnedReleasable(fs, area, before, inode);
    ReleaseBlocks(fs, area, v, disk);
    ClearDone(fs, area, node, before, disk.blocks, r);
    disk.blocks := StoreAt(disk.blocks, node, r);
  }
}
