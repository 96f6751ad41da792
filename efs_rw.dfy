/**
 * DiskInode::read_at and DiskInode::write_at: byte ranges of a file copied
 * block by block between a buffer and the data blocks of the file.
 */
module EfsReadWrite {
  import opened Words
  import opened EfsBlock
  import opened EfsInode
  import opened EfsGrow

  /** A file whose size fits in the blocks an inode can address. */
  predicate Sized(inode: DiskInode) {
    inode.size as int <= MAX_FILE_SIZE
  }

  /** Byte `p` of the file: byte p % 512 of its data block p / 512. */
  function ByteAt(inode: DiskInode, blocks: seq<Block>, p: nat): u8
    requires inode.Shaped() && p < MAX_FILE_SIZE
  {
    Read(blocks, BlockId(inode, blocks, p / 512))[p % 512]
  }

  /** Where a copy of `len` bytes from `offset` stops: at the end of the buffer or of the file. */
  function RangeEnd(inode: DiskInode, offset: nat, len: nat): (r: nat)
    ensures r <= inode.size as int && r <= offset + len
    ensures r == offset + len || r == inode.size as int
  {
    Min(offset + len, inode.size as int)
  }

  /** Positions from `start` up to the end of its block lie in the block of `start`. */
  lemma InBlock(start: nat, p: nat)
    requires start <= p < (start / 512 + 1) * 512
    ensures p / 512 == start / 512 && p % 512 == start % 512 + (p - start)
  {
    var q := start / 512;
    assert p == 512 * q + (start % 512 + (p - start));
  }

  /**
   * Device block `id` with bytes lo .. lo + |data| replaced by `data`, as
   * `modify(0, ..)` leaves it; a block past the end of the device is not written.
   */
  function WriteBytes(blocks: seq<Block>, id: int, lo: nat, data: seq<u8>): (r: seq<Block>)
    requires lo + |data| <= 512
    ensures |r| == |blocks|
    ensures 0 <= id < |blocks| ==> forall k :: 0 <= k < 512 ==>
      Read(r, id)[k] == if lo <= k < lo + |data| then data[k - lo] else Read(blocks, id)[k]
    ensures forall other :: other != id ==> Read(r, other) == Read(blocks, other)
  {
    if 0 <= id < |blocks| then
      var b := blocks[id];
      var nb: Block := b[..lo] + data + b[lo + |data|..];
      blocks[id := nb]
    else blocks
  }

  /** An empty copy leaves the device as it was. */
  lemma WriteNothing(blocks: seq<Block>, id: int, lo: nat)
    requires lo <= 512
    ensures WriteBytes(blocks, id, lo, []) == blocks
  {
    if 0 <= id < |blocks| {
      assert blocks[id][..lo] + [] + blocks[id][lo..] == blocks[id];
    }
  }

  /** Data block `j` of a well-formed file is none of the index blocks the layout lists. */
  lemma IndexApart(inode: DiskInode, blocks: seq<Block>, j: nat)
    requires WellFormed(inode, blocks) && j < DataBlocks(inode.size)
    ensures DIRECT_BOUND < DataBlocks(inode.size) ==> inode.indirect1 != BlockId(inode, blocks, j)
    ensures INDIRECT1_BOUND < DataBlocks(inode.size) ==> inode.indirect2 != BlockId(inode, blocks, j)
    ensures forall a :: 0 <= a < INODE_INDIRECT1_COUNT && INDIRECT1_BOUND + 128 * a < DataBlocks(inode.size) ==>
      L1Id(inode, blocks, a) != BlockId(inode, blocks, j)
  {
    var n := DataBlocks(inode.size);
    var l := Layout(inode, blocks);
    DataAt(inode, blocks, n, j);
    if DIRECT_BOUND < n {
      Indirect1At(inode, blocks, n);
      DataNotIndex(n, DIRECT_BOUND, 0, Total(n));
    }
    if INDIRECT1_BOUND < n {
      Indirect2At(inode, blocks, n);
      DataNotIndex(n, INDIRECT1_BOUND, 0, Total(n));
    }
    forall a | 0 <= a < INODE_INDIRECT1_COUNT && INDIRECT1_BOUND + 128 * a < n
      ensures L1Id(inode, blocks, a) != BlockId(inode, blocks, j)
    {
      L1At(inode, blocks, n, a);
      var i, kk := L1PosForm(a);
      DataNotIndex(n, i, kk, Total(n));
    }
  }

  /** Two different data blocks of a well-formed file are different device blocks. */
  lemma DataApart(inode: DiskInode, blocks: seq<Block>, i: nat, j: nat)
    requires WellFormed(inode, blocks) && i < DataBlocks(inode.size) && j < DataBlocks(inode.size) && i != j
    ensures BlockId(inode, blocks, i) != BlockId(inode, blocks, j)
  {
    var n := DataBlocks(inode.size);
    DataAt(inode, blocks, n, i);
    DataAt(inode, blocks, n, j);
    if i < j {
      PosOrder(i, BoundaryCount(i), j, BoundaryCount(j));
    } else {
      PosOrder(j, BoundaryCount(j), i, BoundaryCount(i));
    }
  }

  /**
   * Writing into data block `j` changes neither the layout nor which device
   * block any data block maps to, nor any other data block, nor any block
   * outside the file.
   */
  lemma DataWrite(inode: DiskInode, blocks: seq<Block>, after: seq<Block>, j: nat)
    requires WellFormed(inode, blocks) && j < DataBlocks(inode.size) && |after| == |blocks|
    requires forall id :: id != BlockId(inode, blocks, j) ==> Read(after, id) == Read(blocks, id)
    ensures WellFormed(inode, after) && Layout(inode, after) == Layout(inode, blocks)
    ensures forall i :: 0 <= i < DataBlocks(inode.size) ==> BlockId(inode, after, i) == BlockId(inode, blocks, i)
    ensures forall i :: 0 <= i < DataBlocks(inode.size) && i != j ==>
      Read(after, BlockId(inode, blocks, i)) == Read(blocks, BlockId(inode, blocks, i))
    ensures forall id :: id !in Layout(inode, blocks) ==> Read(after, id) == Read(blocks, id)
  {
    var n := DataBlocks(inode.size);
    IndexApart(inode, blocks, j);
    forall i | 0 <= i < n
      ensures SameAt(inode, blocks, inode, after, i)
    {
      if INDIRECT1_BOUND <= i {
        var a := (i - INDIRECT1_BOUND) / 128;
        assert INDIRECT1_BOUND + 128 * a <= i;
      }
    }
    LayoutFrame(inode, blocks, inode, after, n);
    forall i | 0 <= i < n
      ensures BlockId(inode, after, i) == BlockId(inode, blocks, i)
    {
      SameAtBlock(inode, blocks, inode, after, i);
    }
    forall i | 0 <= i < n && i != j
      ensures Read(after, BlockId(inode, blocks, i)) == Read(blocks, BlockId(inode, blocks, i))
    {
      DataApart(inode, blocks, i, j);
    }
    DataAt(inode, blocks, n, j);
  }

  /**
   * One block's copy in write_at: bytes lo .. lo + |data| of data block `j`
   * now hold `data`, every other byte of the file and every block outside
   * the file is as it was.
   */
  lemma WriteBlockBytes(inode: DiskInode, blocks: seq<Block>, j: nat, lo: nat, data: seq<u8>)
    requires WellFormed(inode, blocks) && Sized(inode) && j < DataBlocks(inode.size) && lo + |data| <= 512
    ensures var after := WriteBytes(blocks, BlockId(inode, blocks, j), lo, data);
      && WellFormed(inode, after) && Layout(inode, after) == Layout(inode, blocks)
      && (forall id :: id !in Layout(inode, blocks) ==> Read(after, id) == Read(blocks, id))
      && forall p :: 0 <= p < DataBlocks(inode.size) * 512 ==>
        ByteAt(inode, after, p) ==
          if p / 512 == j && lo <= p % 512 < lo + |data| then data[p % 512 - lo]
          else ByteAt(inode, blocks, p)
  {
    var x := BlockId(inode, blocks, j);
    var after := WriteBytes(blocks, x, lo, data);
    DataWrite(inode, blocks, after, j);
    DataAt(inode, blocks, DataBlocks(inode.size), j);
    assert 0 <= x < |blocks|;
  }

  /**
   * DiskInode::read_at: copies the bytes from `offset` up to the end of the
   * buffer or of the file, whichever comes first, into the front of `buf`,
   * and returns how many; nothing when `offset` is at or past the end.
   */
  method ReadAt(inode: DiskInode, offset: nat, buf: array<u8>, blocks: seq<Block>) returns (n: nat)
    requires inode.Shaped() && offset + buf.Length < USIZE_LIMIT
    requires offset < RangeEnd(inode, offset, buf.Length) ==> RangeEnd(inode, offset, buf.Length) <= MAX_FILE_SIZE
    modifies buf
    ensures n == if offset < RangeEnd(inode, offset, buf.Length) then RangeEnd(inode, offset, buf.Length) - offset else 0
    ensures n <= buf.Length
    ensures forall i :: 0 <= i < n ==> offset + i < MAX_FILE_SIZE && buf[i] == ByteAt(inode, blocks, offset + i)
    ensures forall i :: n <= i < buf.Length ==> buf[i] == old(buf[i])
  {
    var start := offset;
    var end := RangeEnd(inode, offset, buf.Length);
    if start >= end {
      return 0;
    }
    var startBlock := start / 512;
    var readSize := 0;
    while true
      invariant start == offset + readSize < end
      invariant startBlock == start / 512
      invariant forall i :: 0 <= i < readSize ==> buf[i] == ByteAt(inode, blocks, offset + i)
      invariant forall i :: readSize <= i < buf.Length ==> buf[i] == old(buf[i])
      decreases end - start
    {
      var endCurrentBlock := (start / 512 + 1) * 512;
      var blockReadSize := Min(end, endCurrentBlock) - start;
      var data := Read(blocks, BlockId(inode, blocks, startBlock));
      forall k | 0 <= k < blockReadSize {
        buf[readSize + k] := data[start % 512 + k];
      }
      forall i | readSize <= i < readSize + blockReadSize
        ensures buf[i] == ByteAt(inode, blocks, offset + i)
      {
        InBlock(start, offset + i);
      }
      readSize := readSize + blockReadSize;
      if end <= endCurrentBlock {
        break;
      }
      startBlock := startBlock + 1;
      start := endCurrentBlock;
    }
    n := readSize;
  }

  /** Offsets within one block differ by their offsets in the block. */
  lemma SameBlock(start: nat, p: nat)
    requires p / 512 == start / 512
    ensures p - start == p % 512 - start % 512
  {
  }

  /**
   * What write_at has done once the bytes from `offset` up to `upto` are
   * copied: the file keeps its layout and its blocks stay well formed, no
   * block outside the file changed, and every byte of the file holds the
   * buffer's byte inside the copied range and its old value outside it.
   */
  ghost predicate Written(inode: DiskInode, before: seq<Block>, blocks: seq<Block>, offset: nat, buf: seq<u8>, upto: nat)
    requires WellFormed(inode, before)
  {
    (&& offset <= upto <= offset + |buf|
     && WellFormed(inode, blocks) && |blocks| == |before| && Layout(inode, blocks) == Layout(inode, before)
     && (forall id :: id !in Layout(inode, before) ==> Read(blocks, id) == Read(before, id))
     && forall p :: 0 <= p < DataBlocks(inode.size) * 512 ==>
          ByteAt(inode, blocks, p) == if offset <= p < upto then buf[p - offset] else ByteAt(inode, before, p)) == true
  }

  /** The byte-level half of WriteStep: the copied range grows from `start` to `next`. */
  lemma WriteStepBytes(inode: DiskInode, before: seq<Block>, blocks: seq<Block>, after: seq<Block>,
                       offset: nat, buf: seq<u8>, start: nat, next: nat, data: seq<u8>)
    requires inode.Shaped() && Sized(inode)
    requires offset <= start < next <= offset + |buf| && start % 512 + (next - start) <= 512
    requires data == buf[start - offset..next - offset]
    requires forall p :: 0 <= p < DataBlocks(inode.size) * 512 ==>
      ByteAt(inode, blocks, p) == if offset <= p < start then buf[p - offset] else ByteAt(inode, before, p)
    requires forall p :: 0 <= p < DataBlocks(inode.size) * 512 ==>
      ByteAt(inode, after, p) ==
        if p / 512 == start / 512 && start % 512 <= p % 512 < start % 512 + |data|
        then data[p % 512 - start % 512]
        else ByteAt(inode, blocks, p)
    ensures forall p :: 0 <= p < DataBlocks(inode.size) * 512 ==>
      ByteAt(inode, after, p) == if offset <= p < next then buf[p - offset] else ByteAt(inode, before, p)
  {
    forall p | 0 <= p < DataBlocks(inode.size) * 512
      ensures ByteAt(inode, after, p) == if offset <= p < next then buf[p - offset] else ByteAt(inode, before, p)
    {
      if p / 512 == start / 512 {
        SameBlock(start, p);
      }
    }
  }

  /** A copy into data block `start / 512` extends the copied range from `start` to `next`. */
  lemma WriteStep(inode: DiskInode, before: seq<Block>, blocks: seq<Block>, offset: nat, buf: seq<u8>,
                  start: nat, next: nat, data: seq<u8>)
    requires WellFormed(inode, before) && Sized(inode) && Written(inode, before, blocks, offset, buf, start)
    requires start < next <= offset + |buf| && next <= inode.size as int
    requires start % 512 + (next - start) <= 512 && data == buf[start - offset..next - offset]
    ensures start / 512 < DataBlocks(inode.size)
    ensures Written(inode, before, WriteBytes(blocks, BlockId(inode, blocks, start / 512), start % 512, data),
                    offset, buf, next)
  {
    var j := start / 512;
    var n := DataBlocks(inode.size);
    assert start < n * 512;
    WriteBlockBytes(inode, blocks, j, start % 512, data);
    var after := WriteBytes(blocks, BlockId(inode, blocks, j), start % 512, data);
    WriteStepBytes(inode, before, blocks, after, offset, buf, start, next, data);
  }

  /**
   * One pass of the write_at loop: `size` bytes of the buffer copied into
   * the data block holding byte `start`, extending the copied range to `next`.
   */
  method CopyBlock(inode: DiskInode, disk: Disk, ghost before: seq<Block>, offset: nat, buf: seq<u8>,
                   start: nat, size: nat) returns (ghost next: nat)
    requires WellFormed(inode, before) && Sized(inode) && Written(inode, before, disk.blocks, offset, buf, start)
    requires start + size <= offset + |buf| && start % 512 + size <= 512
    requires size > 0 ==> start + size <= inode.size as int
    requires start / 512 < MAX_DATA_BLOCKS
    modifies disk
    ensures next == start + size
    ensures Written(inode, before, disk.blocks, offset, buf, next)
  {
    next := start + size;
    var data := buf[start - offset..start + size - offset];
    var id := BlockId(inode, disk.blocks, start / 512);
    if size == 0 {
      WriteNothing(disk.blocks, id, start % 512);
      assert data == [];
    } else {
      WriteStep(inode, before, disk.blocks, offset, buf, start, next, data);
    }
    disk.blocks := WriteBytes(disk.blocks, id, start % 512, data);
  }

  /**
   * DiskInode::write_at: copies the buffer into the file from `offset` up
   * to the end of the buffer or of the file, whichever comes first, and
   * returns how many bytes; the file does not grow. Every byte of the file
   * outside that range, every block outside the file and the file's
   * layout stay as they were.
   */
  method WriteAt(inode: DiskInode, offset: nat, buf: seq<u8>, disk: Disk) returns (n: nat)
    requires WellFormed(inode, disk.blocks) && Sized(inode)
    requires offset + |buf| < USIZE_LIMIT
    requires offset <= inode.size as int
    requires offset / 512 < MAX_DATA_BLOCKS
    modifies disk
    ensures n == RangeEnd(inode, offset, |buf|) - offset
    ensures Written(inode, old(disk.blocks), disk.blocks, offset, buf, offset + n)
  {
    ghost var before := disk.blocks;
    var start := offset;
    var end := RangeEnd(inode, offset, |buf|);
    var startBlock := start / 512;
    var writeSize := 0;
    ghost var reached := start;
    assert Written(inode, before, disk.blocks, offset, buf, reached);
    while true
      invariant start == reached == offset + writeSize <= end
      invariant start < end || start == offset
      invariant startBlock == start / 512 < MAX_DATA_BLOCKS
      invariant Written(inode, before, disk.blocks, offset, buf, reached)
      decreases end - start
    {
      var endCurrentBlock := (start / 512 + 1) * 512;
      var blockWriteSize := Min(end, endCurrentBlock) - start;
      reached := CopyBlock(inode, disk, before, offset, buf, start, blockWriteSize);
      writeSize := writeSize + blockWriteSize;
      if end <= endCurrentBlock {
        break;
      }
      startBlock := startBlock + 1;
      start := endCurrentBlock;
    }
    n := writeSize;
    assert reached == offset + n;
  }
}
