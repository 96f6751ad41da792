/**
 * The file-handle side of the easy-fs VFS layer: open flags, and the file
 * handle whose read and write walk a user buffer slice by slice at a
 * moving file offset.
 */
module VfsHandle {
  import opened Words
  import opened Wrappers
  import opened EfsBlock
  import opened EfsBitmap
  import opened EfsInode
  import opened EfsReadWrite
  import opened Efs
  import opened VfsInode
  import opened VfsBuffer
  import opened VfsHandleSpec

  // ---------------------------------------------------------------------
  // OpenFlags
  // ---------------------------------------------------------------------

  const RDONLY: bv32 := 0

  const WRONLY: bv32 := 1

  const RDWR: bv32 := 2

  const CREATE: bv32 := 0x200

  const TRUNC: bv32 := 0x400

  /**
   * OpenFlags::read_write, as (readable, writable): no flag at all opens
   * for reading only, WRONLY for writing only, anything else for both.
   */
  function ReadWrite(flags: bv32): (r: (bool, bool))
    ensures r.0 <==> flags & WRONLY == 0
    ensures r.1 <==> flags != 0
  {
    if flags == 0 then (true, false)
    else if flags & WRONLY == WRONLY then (false, true)
    else (true, true)
  }

  /**
   * An access mode combined with CREATE or TRUNC: WRONLY never reads,
   * and any extra bit makes even RDONLY writable.
   */
  lemma AccessModes(mode: bv32, extra: bv32)
    requires mode == RDONLY || mode == WRONLY || mode == RDWR
    requires extra & 3 == 0
    ensures ReadWrite(mode | extra) == (mode != WRONLY, mode != RDONLY || extra != 0)
  {
  }

  /** The bits OpenFlags defines. */
  const DEFINED_FLAGS: bv32 := WRONLY | RDWR | CREATE | TRUNC

  /**
   * OpenFlags::from_bits_truncate, which the open syscall applies to the
   * raw word: the defined bits are kept and every other bit is dropped.
   */
  function FromBitsTruncate(bits: bv32): (f: bv32)
    ensures f & WRONLY == bits & WRONLY && f & RDWR == bits & RDWR
    ensures f & CREATE == bits & CREATE && f & TRUNC == bits & TRUNC
    ensures f & !DEFINED_FLAGS == 0
  {
    bits & DEFINED_FLAGS
  }

  /**
   * The access modes of a raw open word: writable only when a defined bit
   * is set, so a word holding nothing but undefined bits opens read-only.
   */
  lemma RawAccessModes(bits: bv32)
    ensures ReadWrite(FromBitsTruncate(bits)) == (bits & WRONLY == 0, bits & DEFINED_FLAGS != 0)
  {
  }

  // ---------------------------------------------------------------------
  // FileHandle
  // ---------------------------------------------------------------------

  /**
   * The loop of FileHandle::read: read_at into each slice in turn at the
   * moving offset, stopping at the first read that returns 0. The slices
   * come back holding the file's bytes from `offset` on, ReadAmount of
   * them; each slice keeps its length.
   */
  method ReadSlices(node: Inode, offset: nat, buf: UserBuffer, ghost want: seq<u8>, disk: Disk)
    returns (total: nat, filled: UserBuffer)
    requires Aligned(node) && Sized(DiskInodeOf(disk.blocks, node))
    requires want == Content(DiskInodeOf(disk.blocks, node), disk.blocks)
    requires offset + Sum(Lengths(buf.buffers)) < USIZE_LIMIT
    ensures ReadInto(buf, filled, want, offset, total)
  {
    ghost var lens := Lengths(buf.buffers);
    var now := buf.buffers;
    total := 0;
    var k: nat := 0;
    var stop := false;
    while k < |now| && !stop
      invariant k <= |now| == |lens| && k <= FirstEmpty(lens)
      invariant total == (if offset < |want| then Min(Sum(lens[..k]), |want| - offset) else 0)
      invariant stop ==> total == ReadAmount(offset, lens, |want|)
      invariant Filled(now, buf.buffers, lens, want, offset, total, k)
      decreases |now| - k + (if stop then 0 else 1)
    {
      total, k, now, stop := ReadSlice(node, offset, buf.buffers, lens, want, disk, total, k, now);
    }
    if !stop {
      assert lens[..|lens|] == lens;
      assert ReadAmount(offset, lens, |want|) == total;
    }
    ReadDone(buf, now, want, offset, total, k);
    filled := UserBuffer(now);
  }

  /**
   * One turn of FileHandle::read's loop: read_at into slice k. A read of
   * 0 stops the loop with ReadAmount read; otherwise slice k is filled
   * and the loop moves on.
   */
  method ReadSlice(node: Inode, offset: nat, ghost before: seq<seq<u8>>, ghost lens: seq<nat>,
                   ghost want: seq<u8>, disk: Disk, total: nat, k: nat, now: seq<seq<u8>>)
    returns (total2: nat, k2: nat, now2: seq<seq<u8>>, stop: bool)
    requires Aligned(node) && Sized(DiskInodeOf(disk.blocks, node))
    requires want == Content(DiskInodeOf(disk.blocks, node), disk.blocks)
    requires lens == Lengths(before) && offset + Sum(lens) < USIZE_LIMIT
    requires k < |now| && k <= FirstEmpty(lens)
    requires total == (if offset < |want| then Min(Sum(lens[..k]), |want| - offset) else 0)
    requires Filled(now, before, lens, want, offset, total, k)
    ensures k2 <= |now2| == |now| && k2 <= FirstEmpty(lens)
    ensures total2 == (if offset < |want| then Min(Sum(lens[..k2]), |want| - offset) else 0)
    ensures stop ==> k2 == k && total2 == ReadAmount(offset, lens, |want|)
    ensures !stop ==> k2 == k + 1
    ensures Filled(now2, before, lens, want, offset, total2, k2)
  {
    SliceBound(lens, k, offset, total);
    var n, got := ReadOne(node, offset + total, now[k], disk, want);
    SliceStep(now, before, lens, want, offset, total, k, n, got);
    if n == 0 {
      return total, k, now[k := got], true;
    }
    return total + n, k + 1, now[k := got], false;
  }

  /**
   * read_at into one slice: a copy of the slice is handed to read_at, and
   * its contents after the call come back.
   */
  method ReadOne(node: Inode, off: nat, slice: seq<u8>, disk: Disk, ghost want: seq<u8>)
    returns (n: nat, got: seq<u8>)
    requires Aligned(node) && Sized(DiskInodeOf(disk.blocks, node))
    requires want == Content(DiskInodeOf(disk.blocks, node), disk.blocks)
    requires off + |slice| < USIZE_LIMIT
    ensures |got| == |slice|
    ensures n == (if off < |want| then Min(off + |got|, |want|) - off else 0)
    ensures forall i :: 0 <= i < n ==> off + i < |want| && got[i] == want[off + i]
    ensures forall i :: n <= i < |got| ==> got[i] == slice[i]
  {
    ghost var file := DiskInodeOf(disk.blocks, node);
    var a := new u8[|slice|](i requires 0 <= i < |slice| => slice[i]);
    n := ReadAtNode(node, off, a, disk);
    got := a[..];
    forall i | 0 <= i < n ensures got[i] == want[off + i] {
      ContentAt(file, disk.blocks, file.size as nat, off + i);
    }
  }

  /** FileHandle: an optional inode, the access rights, and the current offset. */
  class FileHandle {
    const inode: Option<Inode>
    const readable: bool
    const writable: bool
    var offset: nat

    /** FileHandle::new. */
    constructor New(readable: bool, writable: bool, inode: Inode)
      ensures this.inode == Some(inode) && this.readable == readable && this.writable == writable && offset == 0
    {
      this.inode := Some(inode);
      this.readable := readable;
      this.writable := writable;
      offset := 0;
    }

    /** FileHandle::empty. */
    constructor Empty(readable: bool, writable: bool)
      ensures inode.None? && this.readable == readable && this.writable == writable && offset == 0
    {
      inode := None;
      this.readable := readable;
      this.writable := writable;
      offset := 0;
    }

    /**
     * FileHandle::read: with an inode, ReadSlices at the current offset and
     * move the offset past the bytes read; without one, read nothing.
     */
    method Read(buf: UserBuffer, disk: Disk) returns (total: nat, filled: UserBuffer)
      requires inode.Some? ==> Aligned(inode.value) && Sized(DiskInodeOf(disk.blocks, inode.value))
      requires offset + Len(buf) < USIZE_LIMIT
      modifies this
      ensures offset == old(offset) + total
      ensures inode.None? ==> total == 0 && filled == buf
      ensures inode.Some? ==> ReadInto(buf, filled, Content(DiskInodeOf(disk.blocks, inode.value), disk.blocks), old(offset), total)
    {
      if inode.None? {
        return 0, buf;
      }
      ConcatLength(buf.buffers);
      ghost var want := Content(DiskInodeOf(disk.blocks, inode.value), disk.blocks);
      var start := offset;
      total, filled := ReadSlices(inode.value, start, buf, want, disk);
      offset := start + total;
    }

    /**
     * FileHandle::write: write_at of each slice in turn at the moving
     * offset, each writing its whole slice. The file then holds the
     * buffer's bytes from the old offset on, its other bytes are kept,
     * and the offset moves past the buffer. A handle without an inode
     * writes nothing. The caller owes the device room for the whole
     * buffer (Setup).
     */
    method Write(fs: EasyFileSystem, ghost area: nat, buf: UserBuffer, disk: Disk) returns (total: nat)
      requires inode.Some? ==> Setup(fs, area, disk.blocks, inode.value, buf.buffers, offset)
      modifies this, disk
      ensures offset == old(offset) + total
      ensures inode.None? || |buf.buffers| == 0 ==> total == 0 && disk.blocks == old(disk.blocks)
      ensures inode.Some? && |buf.buffers| > 0 ==>
        total == Len(buf) && Stored(fs, area, old(disk.blocks), disk.blocks, inode.value, old(offset), Concat(buf.buffers))
    {
      total := 0;
      if inode.None? || |buf.buffers| == 0 {
        return;
      }
      ConcatLength(buf.buffers);
      total := WriteSlices(fs, area, inode.value, offset, buf.buffers, disk);
      WroteAll(fs, area, old(disk.blocks), disk.blocks, inode.value, buf.buffers, offset);
      offset := offset + total;
    }
  }

  /** The loop of FileHandle::write: every slice written in turn from `offset` on. */
  method WriteSlices(fs: EasyFileSystem, ghost area: nat, node: Inode, offset: nat, bufs: seq<seq<u8>>, disk: Disk)
    returns (total: nat)
    requires Setup(fs, area, disk.blocks, node, bufs, offset)
    modifies disk
    ensures total == |Concat(bufs)|
    ensures Progress(fs, area, old(disk.blocks), disk.blocks, node, bufs, offset, |bufs|)
  {
    ghost var before := disk.blocks;
    StartWrite(fs, area, before, node, bufs, offset);
    var k: nat := 0;
    total := 0;
    while k < |bufs|
      invariant k <= |bufs| && total == |Concat(bufs[..k])|
      invariant Progress(fs, area, before, disk.blocks, node, bufs, offset, k)
    {
      var n := WriteSlice(fs, area, node, bufs, k, before, offset, offset + total, disk);
      total := total + n;
      k := k + 1;
    }
    assert bufs[..|bufs|] == bufs;
  }

  /**
   * Inode::write_at of slice k at the offset the slices before it reached,
   * with the file's state as the earlier slices left it.
   */
  method WriteSlice(fs: EasyFileSystem, ghost area: nat, node: Inode, bufs: seq<seq<u8>>, k: nat,
                    ghost before: seq<Block>, ghost off0: nat, offset: nat, disk: Disk)
    returns (n: nat)
    requires k < |bufs| && offset == off0 + |Concat(bufs[..k])|
    requires Progress(fs, area, before, disk.blocks, node, bufs, off0, k)
    modifies disk
    ensures n == |bufs[k]| && |Concat(bufs[..k + 1])| == |Concat(bufs[..k])| + n
    ensures Progress(fs, area, before, disk.blocks, node, bufs, off0, k + 1)
  {
    SliceWithin(bufs, k);
    ProgressReady(fs, area, disk.blocks, node, bufs, off0, k, offset);
    n := WriteOne(fs, area, node, offset, bufs[k], disk);
    Advance(fs, area, before, old(disk.blocks), disk.blocks, node, bufs, off0, k, offset);
  }

  /** Inode::write_at of one slice on a device ready for it, its outcome bundled as Wrote. */
  method WriteOne(fs: EasyFileSystem, ghost area: nat, node: Inode, offset: nat, slice: seq<u8>, disk: Disk)
    returns (n: nat)
    requires Ready(fs, area, disk.blocks, node, offset, |slice|)
    modifies disk
    ensures n == |slice| && Wrote(fs, area, old(disk.blocks), disk.blocks, node, offset, slice)
  {
    n := WriteAtNode(fs, area, node, offset, slice, disk);
  }
}
