/**
 * EasyFileSystem: the five regions of an easy-fs device (super block, inode
 * bitmap, inode area, data bitmap, data area), how they are sized when a
 * file system is created, how they are found again when it is opened, and
 * the allocation of inodes and data blocks through the two bitmaps.
 */
module Efs {
  import opened Words
  import opened Wrappers
  import opened EfsBlock
  import opened EfsBitmap
  import opened EfsInode
  import opened EfsLayout

  /** Size of a `#[repr(C)]` DiskInode, padding included. */
  const DISK_INODE_SZ: nat := 128
  /** Bytes of a DiskInode that hold fields: the rest is padding after `type_`. */
  const DISK_INODE_FIELDS: nat := 125
  const INODES_PER_BLOCK: nat := 4

  // ---------------------------------------------------------------------
  // The bytes of a DiskInode
  // ---------------------------------------------------------------------

  /** The little-endian bytes of an array of u32. */
  function U32sBytes(s: seq<u32>): (r: seq<u8>)
    ensures |r| == 4 * |s|
  {
    if s == [] then [] else U32Bytes(s[0]) + U32sBytes(s[1..])
  }

  /** Element i of an encoded u32 array sits at byte 4i. */
  lemma {:induction false} U32sBytesAt(s: seq<u32>, i: nat)
    requires i < |s|
    ensures U32sBytes(s)[4 * i..4 * i + 4] == U32Bytes(s[i])
  {
    if i > 0 {
      U32sBytesAt(s[1..], i - 1);
      assert U32sBytes(s)[4 * i..4 * i + 4] == U32sBytes(s[1..])[4 * (i - 1)..4 * (i - 1) + 4];
    }
  }

  /** The `k` u32 values stored from byte `off`. */
  function U32sAt(b: seq<u8>, off: nat, k: nat): (r: seq<u32>)
    requires off + 4 * k <= |b|
    ensures |r| == k && forall i :: 0 <= i < k ==> r[i] == U32At(b, off + 4 * i)
  {
    seq(k, i requires 0 <= i < k => U32At(b, off + 4 * i))
  }

  /** The byte a DiskInodeType is stored as: its discriminant. */
  function KindByte(kind: DiskInodeType): (r: u8)
    ensures r == 0 <==> kind == File
  {
    match kind
    case File => 0
    case Directory => 1
  }

  /** The fields of a DiskInode in `#[repr(C)]` order: size, direct, indirect1, indirect2, type_. */
  function InodeBytes(inode: DiskInode): (r: seq<u8>)
    requires inode.Shaped()
    ensures |r| == DISK_INODE_FIELDS
  {
    U32Bytes(inode.size) + U32sBytes(inode.direct) + U32Bytes(inode.indirect1) + U32Bytes(inode.indirect2)
      + [KindByte(inode.kind)]
  }

  /** The DiskInode whose fields are the bytes `e`. */
  function ParseInode(e: seq<u8>): (r: DiskInode)
    requires |e| == DISK_INODE_FIELDS
    ensures r.Shaped()
  {
    DiskInode(U32At(e, 0), U32sAt(e, 4, INODE_DIRECT_COUNT), U32At(e, 116), U32At(e, 120),
              if e[124] == 0 then File else Directory)
  }

  /** Parsing the bytes of a disk inode gives it back. */
  lemma ParseInodeBytes(inode: DiskInode)
    requires inode.Shaped()
    ensures ParseInode(InodeBytes(inode)) == inode
  {
    var e := InodeBytes(inode);
    var direct := U32sBytes(inode.direct);
    assert e[0..4] == U32Bytes(inode.size);
    U32AtSlice(e, 0, inode.size);
    assert e[116..120] == U32Bytes(inode.indirect1);
    U32AtSlice(e, 116, inode.indirect1);
    assert e[120..124] == U32Bytes(inode.indirect2);
    U32AtSlice(e, 120, inode.indirect2);
    assert e[4..116] == direct;
    forall i | 0 <= i < INODE_DIRECT_COUNT
      ensures U32At(e, 4 + 4 * i) == inode.direct[i]
    {
      U32sBytesAt(inode.direct, i);
      assert e[4 + 4 * i..4 + 4 * i + 4] == direct[4 * i..4 * i + 4];
      U32AtSlice(e, 4 + 4 * i, inode.direct[i]);
    }
  }

  /** The DiskInode stored at byte `off` of a block. */
  function InodeOf(b: Block, off: nat): (r: DiskInode)
    requires off + DISK_INODE_SZ <= BLOCK_SZ
    ensures r.Shaped()
  {
    ParseInode(b[off..off + DISK_INODE_FIELDS])
  }

  /** Block `b` after `modify(off, ..)` has stored `inode` there; the padding bytes keep their value. */
  function WithInode(b: Block, off: nat, inode: DiskInode): (r: Block)
    requires inode.Shaped() && off + DISK_INODE_SZ <= BLOCK_SZ
    ensures r[off..off + DISK_INODE_FIELDS] == InodeBytes(inode)
    ensures forall k :: 0 <= k < BLOCK_SZ && (k < off || off + DISK_INODE_FIELDS <= k) ==> r[k] == b[k]
  {
    b[..off] + InodeBytes(inode) + b[off + DISK_INODE_FIELDS..]
  }

  /** Storing a disk inode and reading it back from the same offset gives it back. */
  lemma InodeRoundTrip(b: Block, off: nat, inode: DiskInode)
    requires inode.Shaped() && off + DISK_INODE_SZ <= BLOCK_SZ
    ensures InodeOf(WithInode(b, off, inode), off) == inode
  {
    ParseInodeBytes(inode);
  }

  /** Storing a disk inode leaves the inodes in the other slots of the block as they were. */
  lemma InodeFrame(b: Block, off: nat, inode: DiskInode, off2: nat)
    requires inode.Shaped() && off + DISK_INODE_SZ <= BLOCK_SZ && off2 + DISK_INODE_SZ <= BLOCK_SZ
    requires off2 + DISK_INODE_SZ <= off || off + DISK_INODE_SZ <= off2
    ensures InodeOf(WithInode(b, off, inode), off2) == InodeOf(b, off2)
  {
    var r := WithInode(b, off, inode);
    assert r[off2..off2 + DISK_INODE_FIELDS] == b[off2..off2 + DISK_INODE_FIELDS];
  }

  // ---------------------------------------------------------------------
  // Region geometry
  // ---------------------------------------------------------------------

  /** What EasyFileSystem::create demands for its u32 arithmetic not to overflow or underflow. */
  predicate GeometryFits(totalBlocks: u32, inodeBitmapBlocks: u32) {
    var inodeAreaBlocks := inodeBitmapBlocks * BLOCK_BITS / INODES_PER_BLOCK;
    && inodeBitmapBlocks * BLOCK_BITS < U32_LIMIT
    && 1 + inodeBitmapBlocks + inodeAreaBlocks <= totalBlocks
    && totalBlocks - (1 + inodeBitmapBlocks + inodeAreaBlocks) + BLOCK_BITS < U32_LIMIT
  }

  /**
   * The super block EasyFileSystem::create writes: the inode area holds
   * one inode per inode-bitmap bit, and the rest of the device is split
   * between the data bitmap and the data area.
   */
  function CreateGeometry(totalBlocks: u32, inodeBitmapBlocks: u32): (sb: SuperBlock)
    requires GeometryFits(totalBlocks, inodeBitmapBlocks)
    ensures sb.IsValid() && sb.totalBlocks == totalBlocks && sb.inodeBitmapBlocks == inodeBitmapBlocks
  {
    var inodeAreaBlocks := inodeBitmapBlocks * BLOCK_BITS / INODES_PER_BLOCK;
    var inodeTotalBlocks := 1 + inodeBitmapBlocks + inodeAreaBlocks;
    var dataTotalBlocks := totalBlocks - inodeTotalBlocks;
    var dataBitmapBlocks := (dataTotalBlocks + BLOCK_BITS) / (BLOCK_BITS + 1);
    var dataAreaBlocks := dataTotalBlocks - dataBitmapBlocks;
    Initialize(totalBlocks, inodeBitmapBlocks, inodeAreaBlocks, dataBitmapBlocks, dataAreaBlocks)
  }

  /**
   * The regions create lays out tile the device exactly; the inode area has
   * a slot for every inode-bitmap bit; the data bitmap covers the data area,
   * and one bitmap block fewer would not.
   */
  lemma CreateGeometrySound(totalBlocks: u32, inodeBitmapBlocks: u32)
    requires GeometryFits(totalBlocks, inodeBitmapBlocks)
    ensures var sb := CreateGeometry(totalBlocks, inodeBitmapBlocks);
      && 1 + sb.inodeBitmapBlocks + sb.inodeAreaBlocks + sb.dataBitmapBlocks + sb.dataAreaBlocks == totalBlocks
      && sb.inodeAreaBlocks * INODES_PER_BLOCK == sb.inodeBitmapBlocks * BLOCK_BITS
      && sb.dataAreaBlocks <= sb.dataBitmapBlocks * BLOCK_BITS
      && (sb.dataBitmapBlocks > 0 ==> (sb.dataBitmapBlocks - 1) * BLOCK_BITS < sb.dataAreaBlocks + 1)
  {
    var sb := CreateGeometry(totalBlocks, inodeBitmapBlocks);
    var dt := totalBlocks - (1 + inodeBitmapBlocks + sb.inodeAreaBlocks);
    FloorDiv(dt + BLOCK_BITS, BLOCK_BITS + 1);
    QuarterExact(inodeBitmapBlocks * 1024);
    assert inodeBitmapBlocks * BLOCK_BITS == inodeBitmapBlocks * 1024 * INODES_PER_BLOCK;
  }

  /** Floor division brackets its dividend. */
  lemma FloorDiv(x: nat, d: nat)
    requires d > 0
    ensures (x / d) * d <= x < (x / d) * d + d
  {
  }

  /** Dividing a multiple of INODES_PER_BLOCK by it is exact. */
  lemma QuarterExact(x: nat)
    ensures x * INODES_PER_BLOCK / INODES_PER_BLOCK == x
  {
    assert x * 4 / 4 == x;
  }

  /** The parts of EasyFileSystem the model keeps: the two bitmaps and where the two areas start. */
  datatype EasyFileSystem = EasyFileSystem(inodeBitmap: Bitmap, dataBitmap: Bitmap,
                                           inodeAreaStart: u32, dataAreaStart: u32)

  /** The super block's region starts do not overflow u32. */
  predicate RegionsFit(sb: SuperBlock) {
    1 + sb.inodeBitmapBlocks + sb.inodeAreaBlocks + sb.dataBitmapBlocks < U32_LIMIT
  }

  /** The regions a super block describes, one after the other from block 1. */
  function FsOf(sb: SuperBlock): (fs: EasyFileSystem)
    requires RegionsFit(sb)
    ensures fs.inodeBitmap == Bitmap(1, sb.inodeBitmapBlocks)
    ensures fs.inodeAreaStart == fs.inodeBitmap.startBlockId + fs.inodeBitmap.blocks
    ensures fs.dataBitmap == Bitmap(fs.inodeAreaStart + sb.inodeAreaBlocks, sb.dataBitmapBlocks)
    ensures fs.dataAreaStart == fs.dataBitmap.startBlockId + fs.dataBitmap.blocks
  {
    var inodeAreaStart := 1 + sb.inodeBitmapBlocks;
    var dataBitmapStart := inodeAreaStart + sb.inodeAreaBlocks;
    var dataAreaStart := dataBitmapStart + sb.dataBitmapBlocks;
    EasyFileSystem(Bitmap(1, sb.inodeBitmapBlocks), Bitmap(dataBitmapStart, sb.dataBitmapBlocks),
                   inodeAreaStart, dataAreaStart)
  }

  /** EasyFileSystem::open: the regions read back from the super block in block 0, whose magic must match. */
  function Open(blocks: seq<Block>): (fs: EasyFileSystem)
    requires SuperOf(Read(blocks, 0)).IsValid() && RegionsFit(SuperOf(Read(blocks, 0)))
    ensures fs == FsOf(SuperOf(Read(blocks, 0)))
  {
    FsOf(SuperOf(Read(blocks, 0)))
  }

  /** Block 0 of a freshly created device, opened, describes the regions create laid out. */
  lemma OpenSuper(b: Block, totalBlocks: u32, inodeBitmapBlocks: u32)
    requires GeometryFits(totalBlocks, inodeBitmapBlocks)
    ensures var sb := CreateGeometry(totalBlocks, inodeBitmapBlocks);
      SuperOf(WithSuper(b, sb)) == sb && sb.IsValid() && RegionsFit(sb)
  {
    var sb := CreateGeometry(totalBlocks, inodeBitmapBlocks);
    SuperRoundTrip(b, sb);
    CreateGeometrySound(totalBlocks, inodeBitmapBlocks);
  }

  // ---------------------------------------------------------------------
  // Addressing
  // ---------------------------------------------------------------------

  /** EasyFileSystem::get_disk_inode_pos: the block and byte offset of inode `id`, four inodes per block. */
  function DiskInodePos(fs: EasyFileSystem, id: u32): (r: (int, nat))
    ensures r.1 + DISK_INODE_SZ <= BLOCK_SZ && r.1 % DISK_INODE_SZ == 0
  {
    (fs.inodeAreaStart + id / INODES_PER_BLOCK, (id % INODES_PER_BLOCK) * DISK_INODE_SZ)
  }

  /** Different inodes have different slots, and the slots of inodes 0 .. 4k-1 fill k blocks from the area start. */
  lemma DiskInodePosInjective(fs: EasyFileSystem, id1: u32, id2: u32)
    ensures DiskInodePos(fs, id1) == DiskInodePos(fs, id2) <==> id1 == id2
    ensures fs.inodeAreaStart <= DiskInodePos(fs, id1).0 <= fs.inodeAreaStart + id1 / INODES_PER_BLOCK
  {
    if DiskInodePos(fs, id1) == DiskInodePos(fs, id2) {
      assert id1 == INODES_PER_BLOCK * (id1 / INODES_PER_BLOCK) + id1 % INODES_PER_BLOCK;
      assert id2 == INODES_PER_BLOCK * (id2 / INODES_PER_BLOCK) + id2 % INODES_PER_BLOCK;
    }
  }

  /** The disk inode with id `id`. */
  function InodeAt(blocks: seq<Block>, fs: EasyFileSystem, id: u32): DiskInode {
    var pos := DiskInodePos(fs, id);
    InodeOf(Read(blocks, pos.0), pos.1)
  }

  /**
   * The device after `modify(offset, ..)` on the slot of inode `id` has
   * stored `inode`: that inode reads back, every other inode and every
   * other block is as it was.
   */
  function StoreInode(blocks: seq<Block>, fs: EasyFileSystem, id: u32, inode: DiskInode): (r: seq<Block>)
    requires inode.Shaped() && 0 <= DiskInodePos(fs, id).0 < |blocks|
    ensures |r| == |blocks| && InodeAt(r, fs, id) == inode
    ensures forall other: u32 :: other != id ==> InodeAt(r, fs, other) == InodeAt(blocks, fs, other)
    ensures forall b :: b != DiskInodePos(fs, id).0 ==> Read(r, b) == Read(blocks, b)
  {
    var pos := DiskInodePos(fs, id);
    var r := blocks[pos.0 := WithInode(blocks[pos.0], pos.1, inode)];
    InodeRoundTrip(blocks[pos.0], pos.1, inode);
    forall other: u32 | other != id
      ensures InodeAt(r, fs, other) == InodeAt(blocks, fs, other)
    {
      DiskInodePosInjective(fs, id, other);
      var pos2 := DiskInodePos(fs, other);
      if pos2.0 == pos.0 {
        InodeFrame(blocks[pos.0], pos.1, inode, pos2.1);
      }
    }
    r
  }

  /** EasyFileSystem::get_data_block_id: the device block of data-area block `d`. */
  function DataBlockId(fs: EasyFileSystem, d: nat): (r: int)
    ensures r - fs.dataAreaStart == d
  {
    fs.dataAreaStart + d
  }

  /**
   * EasyFileSystem::root_inode: the root directory is inode 0, the first
   * slot of the first inode-area block.
   */
  function RootInodePos(fs: EasyFileSystem): (r: (int, nat))
    ensures r == (fs.inodeAreaStart as int, 0)
    ensures forall id: u32 :: DiskInodePos(fs, id) == r <==> id == 0
  {
    DiskInodePos(fs, 0)
  }

  // ---------------------------------------------------------------------
  // Allocation
  // ---------------------------------------------------------------------

  /** The regions of an opened or created file system: ordered, on the device, with u32 ids. */
  predicate Valid(fs: EasyFileSystem, blocks: seq<Block>) {
    && fs.inodeBitmap.startBlockId + fs.inodeBitmap.blocks <= fs.inodeAreaStart
    && fs.dataBitmap.startBlockId + fs.dataBitmap.blocks <= fs.dataAreaStart
    && fs.inodeBitmap.startBlockId + fs.inodeBitmap.blocks <= |blocks|
    && fs.dataBitmap.startBlockId + fs.dataBitmap.blocks <= |blocks|
    && Maximum(fs.inodeBitmap) <= U32_LIMIT
  }

  /** Every bit of a bitmap is set: `alloc(..).unwrap()` would panic. */
  ghost predicate Full(blocks: seq<Block>, bm: Bitmap) {
    forall bit :: 0 <= bit < Maximum(bm) ==> IsSet(blocks, bm, bit)
  }

  /** EasyFileSystem::alloc_inode: the lowest free inode id, marked in the inode bitmap. */
  method AllocInode(fs: EasyFileSystem, disk: Disk) returns (id: u32)
    requires Valid(fs, disk.blocks) && !Full(disk.blocks, fs.inodeBitmap)
    modifies disk
    ensures id < Maximum(fs.inodeBitmap) && !IsSet(old(disk.blocks), fs.inodeBitmap, id)
    ensures forall bit :: 0 <= bit < id ==> IsSet(old(disk.blocks), fs.inodeBitmap, bit)
    ensures disk.blocks == Marked(old(disk.blocks), fs.inodeBitmap, id, true)
  {
    var pos := Alloc(fs.inodeBitmap, disk);
    id := pos.value;
  }

  /** EasyFileSystem::alloc_data: the lowest free data block, marked, as a device block id. */
  method AllocData(fs: EasyFileSystem, disk: Disk) returns (id: u32)
    requires Valid(fs, disk.blocks) && !Full(disk.blocks, fs.dataBitmap)
    requires fs.dataAreaStart + Maximum(fs.dataBitmap) <= U32_LIMIT
    modifies disk
    ensures var bit := id - fs.dataAreaStart;
      && fs.dataAreaStart <= id && bit < Maximum(fs.dataBitmap) && !IsSet(old(disk.blocks), fs.dataBitmap, bit)
      && (forall b :: 0 <= b < bit ==> IsSet(old(disk.blocks), fs.dataBitmap, b))
      && disk.blocks == Marked(old(disk.blocks), fs.dataBitmap, bit, true)
  {
    var pos := Alloc(fs.dataBitmap, disk);
    id := DataBlockId(fs, pos.value);
  }

  /** The device with block `id` filled with zeros. */
  function Zeroed(blocks: seq<Block>, id: int): (r: seq<Block>)
    ensures |r| == |blocks| && Read(r, id) == ZeroBlock()
    ensures forall other :: other != id ==> Read(r, other) == Read(blocks, other)
  {
    if 0 <= id < |blocks| then blocks[id := ZeroBlock()] else blocks
  }

  /** EasyFileSystem::dealloc_data: the block is zeroed, then its bit in the data bitmap cleared. */
  method DeallocData(fs: EasyFileSystem, disk: Disk, blockId: u32)
    requires Valid(fs, disk.blocks) && fs.dataAreaStart <= blockId
    requires Holder(fs.dataBitmap, blockId - fs.dataAreaStart) < |disk.blocks|
    requires IsSet(Zeroed(disk.blocks, blockId), fs.dataBitmap, blockId - fs.dataAreaStart)
    modifies disk
    ensures disk.blocks == Marked(Zeroed(old(disk.blocks), blockId), fs.dataBitmap, blockId - fs.dataAreaStart, false)
  {
    var bit := blockId - fs.dataAreaStart;
    var zeroed := Zeroed(disk.blocks, blockId);
    disk.blocks := zeroed;
    Dealloc(fs.dataBitmap, disk, bit);
    assert disk.blocks == Marked(zeroed, fs.dataBitmap, bit, false);
  }

  /**
   * Freeing a data block just taken clears its bitmap bit again: the
   * device is as before except that the block now holds zeros.
   */
  lemma AllocThenDeallocData(fs: EasyFileSystem, blocks: seq<Block>, bit: nat)
    requires Valid(fs, blocks) && bit < Maximum(fs.dataBitmap) && !IsSet(blocks, fs.dataBitmap, bit)
    requires Holder(fs.dataBitmap, bit) < |blocks|
    ensures var id := DataBlockId(fs, bit); var taken := Marked(blocks, fs.dataBitmap, bit, true);
      && IsSet(Zeroed(taken, id), fs.dataBitmap, bit)
      && Marked(Zeroed(taken, id), fs.dataBitmap, bit, false) == Zeroed(blocks, id)
  {
    var bm := fs.dataBitmap;
    var id := DataBlockId(fs, bit);
    var h := Holder(bm, bit);
    assert h < id;
    var taken := Marked(blocks, bm, bit, true);
    AllocThenDealloc(blocks, bm, bit);
    assert Zeroed(taken, id)[h] == taken[h];
    assert Marked(Zeroed(taken, id), bm, bit, false) == Zeroed(Marked(taken, bm, bit, false), id);
  }

  /** The free bits of a bitmap below `bound`. */
  ghost function FreeBits(blocks: seq<Block>, bm: Bitmap, bound: nat): set<nat> {
    set bit: nat | bit < bound && !IsSet(blocks, bm, bit)
  }

  /**
   * alloc_data kept inside the data area: the lowest free data block, which
   * lies in the first `areaBlocks` blocks of the area as long as one of
   * them is free. The source has no such bound (see AllocPastDevice).
   */
  method AllocDataInArea(fs: EasyFileSystem, ghost areaBlocks: nat, disk: Disk) returns (id: u32)
    requires Valid(fs, disk.blocks) && areaBlocks <= Maximum(fs.dataBitmap)
    requires fs.dataAreaStart + Maximum(fs.dataBitmap) <= U32_LIMIT
    requires FreeBits(disk.blocks, fs.dataBitmap, areaBlocks) != {}
    modifies disk
    ensures var bit := id - fs.dataAreaStart;
      && fs.dataAreaStart <= id && bit < areaBlocks && !IsSet(old(disk.blocks), fs.dataBitmap, bit)
      && (forall b :: 0 <= b < bit ==> IsSet(old(disk.blocks), fs.dataBitmap, b))
      && disk.blocks == Marked(old(disk.blocks), fs.dataBitmap, bit, true)
  {
    ghost var free := SomeFree(disk.blocks, fs.dataBitmap, areaBlocks);
    id := AllocData(fs, disk);
    assert free >= id - fs.dataAreaStart;
  }

  /** A free bit below a bound inside the bitmap: the bitmap is not full. */
  lemma SomeFree(blocks: seq<Block>, bm: Bitmap, bound: nat) returns (free: nat)
    requires bound <= Maximum(bm) && FreeBits(blocks, bm, bound) != {}
    ensures free < bound && !IsSet(blocks, bm, free) && !Full(blocks, bm)
  {
    free :| free in FreeBits(blocks, bm, bound);
  }

  // ---------------------------------------------------------------------
  // Creating a file system
  // ---------------------------------------------------------------------

  lemma {:induction false} ZeroBits(n: nat, i: nat)
    requires i < n
    ensures !BitsOf(0, n)[i]
  {
    if i > 0 {
      ZeroBits(n - 1, i - 1);
    }
  }

  /** A zeroed bitmap block has no bit set. */
  lemma ZeroBlockClear(i: nat)
    requires i < BLOCK_BITS
    ensures !BitAt(ZeroBlock(), i)
  {
    ZeroBits(8, i % 8);
  }

  /** The loop of EasyFileSystem::create that fills blocks 0 .. n-1 with zeros. */
  method ZeroBlocks(disk: Disk, n: nat)
    requires n <= |disk.blocks|
    modifies disk
    ensures |disk.blocks| == |old(disk.blocks)|
    ensures forall id :: 0 <= id < n ==> disk.blocks[id] == ZeroBlock()
    ensures forall id :: n <= id < |disk.blocks| ==> disk.blocks[id] == old(disk.blocks)[id]
  {
    var i := 0;
    while i < n
      invariant i <= n && |disk.blocks| == |old(disk.blocks)|
      invariant forall id :: 0 <= id < i ==> disk.blocks[id] == ZeroBlock()
      invariant forall id :: i <= id < |disk.blocks| ==> disk.blocks[id] == old(disk.blocks)[id]
    {
      disk.blocks := disk.blocks[i := ZeroBlock()];
      i := i + 1;
    }
  }

  /** Every bit of a bitmap whose blocks hold zeros is clear. */
  lemma ZeroBitmapClear(blocks: seq<Block>, bm: Bitmap, bit: nat)
    requires bit < Maximum(bm) && Holder(bm, bit) < |blocks| && blocks[Holder(bm, bit)] == ZeroBlock()
    ensures !IsSet(blocks, bm, bit)
  {
    ZeroBlockClear(bit % BLOCK_BITS);
  }

  /** The first part of EasyFileSystem::create: blocks 0 .. n-1 zeroed, then the super block written to block 0. */
  method Format(disk: Disk, n: nat, sb: SuperBlock)
    requires 0 < n <= |disk.blocks|
    modifies disk
    ensures |disk.blocks| == |old(disk.blocks)|
    ensures disk.blocks[0] == WithSuper(ZeroBlock(), sb)
    ensures forall id :: 0 < id < n ==> disk.blocks[id] == ZeroBlock()
    ensures forall id :: n <= id < |disk.blocks| ==> disk.blocks[id] == old(disk.blocks)[id]
  {
    ZeroBlocks(disk, n);
    disk.blocks := disk.blocks[0 := WithSuper(disk.blocks[0], sb)];
  }

  /** On a zeroed inode bitmap, marking bit 0 leaves it the only bit set. */
  lemma FirstBitOnly(blocks: seq<Block>, bm: Bitmap, bit: nat)
    requires bm.startBlockId == 1 && bit < Maximum(bm) && bm.startBlockId + bm.blocks <= |blocks|
    requires forall id :: 1 <= id < 1 + bm.blocks ==> blocks[id] == ZeroBlock()
    ensures IsSet(Marked(blocks, bm, 0, true), bm, bit) <==> bit == 0
  {
    MarkedIsSet(blocks, bm, 0, true, bit);
    ZeroBitmapClear(blocks, bm, bit);
  }

  /** `alloc_inode` on a zeroed inode bitmap returns inode 0, as `assert_eq!(root_inode_id, 0)` expects. */
  method AllocRoot(fs: EasyFileSystem, disk: Disk) returns (rootId: u32)
    requires Valid(fs, disk.blocks) && fs.inodeBitmap.startBlockId == 1 && 1 <= fs.inodeBitmap.blocks
    requires forall id :: 1 <= id < 1 + fs.inodeBitmap.blocks ==> disk.blocks[id] == ZeroBlock()
    modifies disk
    ensures rootId == 0 && disk.blocks == Marked(old(disk.blocks), fs.inodeBitmap, 0, true)
  {
    ZeroBitmapClear(disk.blocks, fs.inodeBitmap, 0);
    rootId := AllocInode(fs, disk);
  }

  /**
   * The second part of EasyFileSystem::create, on a formatted device: inode
   * 0 allocated (it is the lowest clear bit) and an empty directory inode
   * stored in its slot. Only the first inode-bitmap block and the first
   * inode-area block change.
   */
  method CreateRoot(fs: EasyFileSystem, disk: Disk)
    requires Valid(fs, disk.blocks) && fs.inodeBitmap.startBlockId == 1 && 1 <= fs.inodeBitmap.blocks
    requires fs.inodeAreaStart == 1 + fs.inodeBitmap.blocks < |disk.blocks|
    requires forall id :: 1 <= id < 1 + fs.inodeBitmap.blocks ==> disk.blocks[id] == ZeroBlock()
    modifies disk
    ensures |disk.blocks| == |old(disk.blocks)|
    ensures forall id :: id != 1 && id != fs.inodeAreaStart ==> Read(disk.blocks, id) == Read(old(disk.blocks), id)
    ensures InodeAt(disk.blocks, fs, 0) == Initialized(Directory)
    ensures forall bit :: 0 <= bit < Maximum(fs.inodeBitmap) ==> (IsSet(disk.blocks, fs.inodeBitmap, bit) <==> bit == 0)
  {
    ghost var zeroed := disk.blocks;
    var rootId := AllocRoot(fs, disk);
    assert DiskInodePos(fs, rootId).0 == fs.inodeAreaStart as int;
    ghost var marked := disk.blocks;
    disk.blocks := StoreInode(disk.blocks, fs, rootId, Initialized(Directory));
    RootBits(fs, zeroed, marked, disk.blocks);
  }

  /** The bitmap and frame facts of CreateRoot, from the two updates it makes. */
  lemma RootBits(fs: EasyFileSystem, zeroed: seq<Block>, marked: seq<Block>, final: seq<Block>)
    requires fs.inodeBitmap.startBlockId == 1 && fs.inodeAreaStart == 1 + fs.inodeBitmap.blocks <= |zeroed|
    requires forall id :: 1 <= id < 1 + fs.inodeBitmap.blocks ==> zeroed[id] == ZeroBlock()
    requires 1 <= fs.inodeBitmap.blocks && marked == Marked(zeroed, fs.inodeBitmap, 0, true)
    requires forall b :: b != fs.inodeAreaStart ==> Read(final, b) == Read(marked, b)
    ensures forall id :: id != 1 && id != fs.inodeAreaStart ==> Read(final, id) == Read(zeroed, id)
    ensures forall bit :: 0 <= bit < Maximum(fs.inodeBitmap) ==> (IsSet(final, fs.inodeBitmap, bit) <==> bit == 0)
  {
    forall bit | 0 <= bit < Maximum(fs.inodeBitmap)
      ensures IsSet(final, fs.inodeBitmap, bit) <==> bit == 0
    {
      FirstBitOnly(zeroed, fs.inodeBitmap, bit);
      assert Read(final, Holder(fs.inodeBitmap, bit)) == Read(marked, Holder(fs.inodeBitmap, bit));
    }
  }

  /** The regions of a created file system, from the super block create writes. */
  lemma CreatedRegions(totalBlocks: u32, inodeBitmapBlocks: u32)
    requires GeometryFits(totalBlocks, inodeBitmapBlocks) && 1 <= inodeBitmapBlocks
    ensures var sb := CreateGeometry(totalBlocks, inodeBitmapBlocks); var fs := FsOf(sb);
      && RegionsFit(sb)
      && fs.inodeAreaStart < fs.dataBitmap.startBlockId
      && fs.dataBitmap.startBlockId + fs.dataBitmap.blocks <= totalBlocks
      && fs.dataBitmap.startBlockId + fs.dataBitmap.blocks <= fs.dataAreaStart
      && Maximum(fs.inodeBitmap) <= U32_LIMIT
  {
    CreateGeometrySound(totalBlocks, inodeBitmapBlocks);
  }

  /**
   * EasyFileSystem::create: zeroes the first `totalBlocks` blocks, writes
   * the super block, allocates inode 0 and stores an empty directory inode
   * in its slot. Opening the device afterwards finds the same regions; the
   * root directory is inode 0, the only inode marked in use, and no data
   * block is in use.
   */
  method Create(disk: Disk, totalBlocks: u32, inodeBitmapBlocks: u32) returns (fs: EasyFileSystem)
    requires GeometryFits(totalBlocks, inodeBitmapBlocks) && 1 <= inodeBitmapBlocks
    requires totalBlocks as int <= |disk.blocks|
    modifies disk
    ensures var sb := CreateGeometry(totalBlocks, inodeBitmapBlocks);
      RegionsFit(sb) && fs == FsOf(sb) && SuperOf(Read(disk.blocks, 0)) == sb
    ensures Open(disk.blocks) == fs && Valid(fs, disk.blocks)
    ensures InodeAt(disk.blocks, fs, 0) == Initialized(Directory)
    ensures forall bit :: 0 <= bit < Maximum(fs.inodeBitmap) ==> (IsSet(disk.blocks, fs.inodeBitmap, bit) <==> bit == 0)
    ensures forall bit :: 0 <= bit < Maximum(fs.dataBitmap) ==> !IsSet(disk.blocks, fs.dataBitmap, bit)
    ensures |disk.blocks| == |old(disk.blocks)|
    ensures forall id :: fs.inodeAreaStart < id < totalBlocks ==> disk.blocks[id] == ZeroBlock()
    ensures forall id :: totalBlocks <= id < |disk.blocks| ==> disk.blocks[id] == old(disk.blocks)[id]
  {
    var sb := CreateGeometry(totalBlocks, inodeBitmapBlocks);
    CreatedRegions(totalBlocks, inodeBitmapBlocks);
    OpenSuper(ZeroBlock(), totalBlocks, inodeBitmapBlocks);
    Format(disk, totalBlocks, sb);
    fs := FsOf(sb);
    ghost var formatted := disk.blocks;
    CreateRoot(fs, disk);
    assert Read(disk.blocks, 0) == formatted[0];
    forall bit | 0 <= bit < Maximum(fs.dataBitmap)
      ensures !IsSet(disk.blocks, fs.dataBitmap, bit)
    {
      ZeroBitmapClear(formatted, fs.dataBitmap, bit);
      assert Read(disk.blocks, Holder(fs.dataBitmap, bit)) == formatted[Holder(fs.dataBitmap, bit)];
    }
    forall id | fs.inodeAreaStart < id < |disk.blocks|
      ensures disk.blocks[id] == formatted[id]
    {
      assert Read(disk.blocks, id) == Read(formatted, id);
    }
  }

  /**
   * alloc_data as written can hand out a block past the device: on a
   * 1028-block device with one inode-bitmap block the data area is the
   * single block 1027, yet the data bitmap has 4096 bits, and the second
   * allocation returns block 1028.
   */
  lemma SmallGeometry()
    ensures GeometryFits(1028, 1) && RegionsFit(CreateGeometry(1028, 1))
    ensures var fs := FsOf(CreateGeometry(1028, 1));
      fs.dataAreaStart == 1027 && fs.dataBitmap == Bitmap(1026, 1) && fs.inodeBitmap == Bitmap(1, 1)
  {
  }

  /** Two allocations from a data bitmap whose first two bits are free take the first two data blocks. */
  method AllocTwo(fs: EasyFileSystem, disk: Disk) returns (first: u32, second: u32)
    requires Valid(fs, disk.blocks) && fs.dataAreaStart + Maximum(fs.dataBitmap) <= U32_LIMIT
    requires 2 <= Maximum(fs.dataBitmap)
    requires !IsSet(disk.blocks, fs.dataBitmap, 0) && !IsSet(disk.blocks, fs.dataBitmap, 1)
    modifies disk
    ensures first == fs.dataAreaStart && second == fs.dataAreaStart + 1 && |disk.blocks| == |old(disk.blocks)|
  {
    ghost var before := disk.blocks;
    first := AllocData(fs, disk);
    assert first == fs.dataAreaStart;
    MarkedIsSet(before, fs.dataBitmap, 0, true, 0);
    MarkedIsSet(before, fs.dataBitmap, 0, true, 1);
    second := AllocData(fs, disk);
    assert second - fs.dataAreaStart <= 1;
  }

  method AllocPastDevice(disk: Disk) returns (first: u32, second: u32)
    requires |disk.blocks| == 1028
    modifies disk
    ensures first == 1027 && second == 1028 && second as int == |disk.blocks|
  {
    SmallGeometry();
    var fs := Create(disk, 1028, 1);
    first, second := AllocTwo(fs, disk);
  }
}
