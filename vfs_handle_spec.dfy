/**
 * What FileHandle::read and FileHandle::write promise, stated over the
 * device blocks: the bytes a read copies into the slices and the state a
 * write leaves the file in, slice by slice.
 */
module VfsHandleSpec {
  import opened Words
  import opened EfsBlock
  import opened EfsBitmap
  import opened EfsInode
  import opened EfsReadWrite
  import opened Efs
  import opened VfsInode
  import opened VfsBuffer

  /** The index of the first empty slice, or the number of slices if none is. */
  function FirstEmpty(lens: seq<nat>): (z: nat)
    ensures z <= |lens| && (z < |lens| ==> lens[z] == 0)
    ensures forall j :: 0 <= j < z ==> lens[j] > 0
  {
    if |lens| == 0 then 0
    else if lens[0] == 0 then 0
    else 1 + FirstEmpty(lens[1..])
  }

  /**
   * The bytes a read of slices of lengths `lens` at `offset` transfers
   * from a file of `size` bytes: the slices before the first empty one,
   * cut short where the file ends.
   */
  function ReadAmount(offset: nat, lens: seq<nat>, size: nat): nat {
    if offset < size then Min(Sum(lens[..FirstEmpty(lens)]), size - offset) else 0
  }

  /** The file's bytes, in order. */
  ghost function Content(inode: DiskInode, blocks: seq<Block>): (r: seq<u8>)
    requires inode.Shaped() && Sized(inode)
    ensures |r| == inode.size as int
  {
    Prefix(inode, blocks, inode.size as nat)
  }

  /** The file's first `n` bytes. */
  ghost function Prefix(inode: DiskInode, blocks: seq<Block>, n: nat): (r: seq<u8>)
    requires inode.Shaped() && Sized(inode) && n <= inode.size as int
    ensures |r| == n
  {
    if n == 0 then [] else Prefix(inode, blocks, n - 1) + [ByteAt(inode, blocks, n - 1)]
  }

  /** Byte p of the content is the file's byte p. */
  lemma {:induction false} ContentAt(inode: DiskInode, blocks: seq<Block>, n: nat, p: nat)
    requires inode.Shaped() && Sized(inode) && p < n <= inode.size as int
    ensures Prefix(inode, blocks, n)[p] == ByteAt(inode, blocks, p)
  {
    if p < n - 1 {
      ContentAt(inode, blocks, n - 1, p);
    }
  }

  /**
   * Slice contents `a` hold, from their start, the `count` bytes of `want`
   * from `start` on; their other bytes are as in `prior`.
   */
  ghost predicate SliceInto(a: seq<u8>, prior: seq<u8>, want: seq<u8>, start: nat, count: int) {
    forall i :: 0 <= i < |a| ==>
      if i < count then start + i < |want| && a[i] == want[start + i]
      else i < |prior| && a[i] == prior[i]
  }

  /**
   * The outcome of a read of `buf` at `offset` from a file whose bytes are
   * `want`: `filled` has the slices' lengths, ReadAmount bytes were read,
   * and the slices hold the file's bytes from `offset` on, one after the
   * other, up to that amount, their other bytes as they were.
   */
  ghost predicate ReadInto(buf: UserBuffer, filled: UserBuffer, want: seq<u8>, offset: nat, total: nat) {
    var lens := Lengths(buf.buffers);
    && Lengths(filled.buffers) == lens
    && total == ReadAmount(offset, lens, |want|)
    && forall k :: 0 <= k < |buf.buffers| ==>
         SliceInto(filled.buffers[k], buf.buffers[k], want, offset + Sum(lens[..k]), total - Sum(lens[..k]))
  }

  /**
   * Progress of FileHandle::read over slice contents `now`: the first `k`
   * slices hold the file's bytes from `off0` on, the rest are untouched.
   */
  ghost predicate Filled(now: seq<seq<u8>>, before: seq<seq<u8>>, lens: seq<nat>, want: seq<u8>,
                         off0: nat, total: nat, k: nat)
  {
    && k <= |now| == |before| == |lens|
    && (forall j :: 0 <= j < |now| ==> |now[j]| == |before[j]| == lens[j])
    && (forall j :: 0 <= j < k ==> SliceInto(now[j], before[j], want, off0 + Sum(lens[..j]), total - Sum(lens[..j])))
    && (forall j :: k <= j < |now| ==> now[j] == before[j])
  }

  /**
   * The device can take a write_at that ends at or before `final`: the
   * file is owned, `final` is within the largest file, and the free data
   * blocks pay for its growth to `final`.
   */
  ghost predicate Current(fs: EasyFileSystem, area: nat, blocks: seq<Block>, node: Inode, final: nat) {
    (Owns(fs, area, blocks, node) && final <= MAX_FILE_SIZE && Room(fs, area, blocks, DiskInodeOf(blocks, node), final)) == true
  }

  /** The device layout holds and slot `node` is an owned file. */
  ghost predicate Owns(fs: EasyFileSystem, area: nat, blocks: seq<Block>, node: Inode) {
    IsSlot(fs, node) && Fits(fs, area, blocks) && Owned(fs, area, blocks, DiskInodeOf(blocks, node))
  }

  /**
   * What FileHandle::write needs before its first slice: room for all of
   * them, and every slice, empty ones included, starting inside the
   * largest file (write_at looks up the block at its start before it
   * checks the length).
   */
  ghost predicate Setup(fs: EasyFileSystem, area: nat, before: seq<Block>, node: Inode, bufs: seq<seq<u8>>, off0: nat) {
    Current(fs, area, before, node, off0 + |Concat(bufs)|) && StartsInside(bufs, off0)
  }

  /** Every slice of `bufs`, written one after the other from `off0`, starts below MAX_FILE_SIZE. */
  ghost predicate StartsInside(bufs: seq<seq<u8>>, off0: nat) {
    forall k :: 0 <= k < |bufs| ==> off0 + |Concat(bufs[..k])| < MAX_FILE_SIZE
  }

  /**
   * The first k slices are written from `off0` on: the file grew over
   * them (Extended), holds their bytes there, keeps its other bytes, and
   * still has room for the slices left.
   */
  ghost predicate Progress(fs: EasyFileSystem, area: nat, before: seq<Block>, blocks: seq<Block>, node: Inode,
                           bufs: seq<seq<u8>>, off0: nat, k: nat)
  {
    (&& k <= |bufs| && Setup(fs, area, before, node, bufs, off0)
     && Current(fs, area, blocks, node, off0 + |Concat(bufs)|)
     && |Concat(bufs[..k])| <= |Concat(bufs)|
     && Reached(fs, area, before, blocks, node, off0 + |Concat(bufs[..k])|, k)
     && Bytes(DiskInodeOf(blocks, node), blocks, DiskInodeOf(before, node), before, off0, Concat(bufs[..k]))) == true
  }

  /** The file is as it was before any slice, or grew over the `k` slices written up to `reached`. */
  ghost predicate Reached(fs: EasyFileSystem, area: nat, before: seq<Block>, blocks: seq<Block>, node: Inode, reached: nat, k: nat)
    requires Aligned(node)
  {
    ((k == 0 ==> blocks == before) && (k > 0 ==> Extended(fs, area, before, blocks, node, reached))) == true
  }

  /** The file holds `data` from `off0` on and its other original bytes are kept. */
  ghost predicate Bytes(inode: DiskInode, blocks: seq<Block>, start: DiskInode, before: seq<Block>, off0: nat, data: seq<u8>)
    requires inode.Shaped() && start.Shaped() && Sized(start)
  {
    (&& start.size <= inode.size
     && Holds(inode, blocks, off0, data)
     && KeptOutside(inode, blocks, start, before, off0, off0 + |data|)) == true
  }

  /** The file's bytes from `off` on are `data`. */
  ghost predicate Holds(inode: DiskInode, blocks: seq<Block>, off: nat, data: seq<u8>)
    requires inode.Shaped()
  {
    forall p :: off <= p < off + |data| ==> p < MAX_FILE_SIZE && ByteAt(inode, blocks, p) == data[p - off]
  }

  /** Every byte of `orig` outside [lo, hi) reads the same in the file now. */
  ghost predicate KeptOutside(inode: DiskInode, blocks: seq<Block>, orig: DiskInode, origBlocks: seq<Block>, lo: nat, hi: nat)
    requires inode.Shaped() && orig.Shaped() && Sized(orig) && orig.size <= inode.size
  {
    forall p :: 0 <= p < orig.size as int && !(lo <= p < hi) ==> ByteAt(inode, blocks, p) == ByteAt(orig, origBlocks, p)
  }

  /**
   * The part of write_at's effect that carries over from one slice to the
   * next: the file grew to at least `newSize` bytes and is still owned, the
   * free blocks paid for the growth, no data bit was cleared and every
   * other inode slot is as it was.
   */
  ghost predicate Extended(fs: EasyFileSystem, area: nat, before: seq<Block>, after: seq<Block>, node: Inode, newSize: nat)
    requires Aligned(node)
  {
    var inode := DiskInodeOf(before, node);
    var r := DiskInodeOf(after, node);
    (&& |after| == |before| && Fits(fs, area, after) && Owned(fs, area, after, r)
     && r.size as int == (if inode.size as int < newSize then newSize else inode.size as int) && r.kind == inode.kind
     && |Free(fs, area, after)| + TotalBlocks(r.size) == |Free(fs, area, before)| + TotalBlocks(inode.size)
     && (forall b: nat {:trigger IsSet(before, fs.dataBitmap, b)} :: b < area && IsSet(before, fs.dataBitmap, b) ==> IsSet(after, fs.dataBitmap, b))
     && (forall other {:trigger DiskInodeOf(after, other)} :: IsSlot(fs, other) && other != node ==> DiskInodeOf(after, other) == DiskInodeOf(before, other))) == true
  }

  /**
   * A whole write of `data` from `off0` is done: the file was owned before,
   * grew to cover the data (Extended), holds it there and keeps its other bytes.
   */
  ghost predicate Stored(fs: EasyFileSystem, area: nat, before: seq<Block>, after: seq<Block>, node: Inode,
                          off0: nat, data: seq<u8>)
    requires Aligned(node)
  {
    (&& Owned(fs, area, before, DiskInodeOf(before, node))
     && Extended(fs, area, before, after, node, off0 + |data|)
     && Bytes(DiskInodeOf(after, node), after, DiskInodeOf(before, node), before, off0, data)) == true
  }

  /** What Inode::write_at of `len` bytes at `offset` needs of the device. */
  ghost predicate Ready(fs: EasyFileSystem, area: nat, blocks: seq<Block>, node: Inode, offset: nat, len: nat) {
    (&& Fits(fs, area, blocks) && IsSlot(fs, node) && Owned(fs, area, blocks, DiskInodeOf(blocks, node))
     && offset < MAX_FILE_SIZE && offset + len <= MAX_FILE_SIZE
     && Room(fs, area, blocks, DiskInodeOf(blocks, node), offset + len)) == true
  }

  /** write_at's outcome: the file grew over the slice, holds it, and keeps its other bytes. */
  ghost predicate Wrote(fs: EasyFileSystem, area: nat, cur: seq<Block>, after: seq<Block>, node: Inode, offset: nat, slice: seq<u8>)
    requires Aligned(node) && offset + |slice| <= MAX_FILE_SIZE
  {
    (&& Updated(fs, area, cur, after, node, offset + |slice|)
     && (forall p :: offset <= p < offset + |slice| ==> ByteAt(DiskInodeOf(after, node), after, p) == slice[p - offset])
     && (forall p :: 0 <= p < DiskInodeOf(cur, node).size as int && !(offset <= p < offset + |slice|) ==>
           ByteAt(DiskInodeOf(after, node), after, p) == ByteAt(DiskInodeOf(cur, node), cur, p))) == true
  }

  /** When the loop ends, the slices are filled as ReadInto says. */
  lemma ReadDone(buf: UserBuffer, now: seq<seq<u8>>, want: seq<u8>, offset: nat, total: nat, k: nat)
    requires Filled(now, buf.buffers, Lengths(buf.buffers), want, offset, total, k)
    requires total == ReadAmount(offset, Lengths(buf.buffers), |want|) && total <= Sum(Lengths(buf.buffers)[..k])
    ensures ReadInto(buf, UserBuffer(now), want, offset, total)
  {
    var lens := Lengths(buf.buffers);
    ReadRest(now, buf.buffers, lens, want, offset, total, k);
    assert Lengths(now) == lens;
  }

  /** Slice k ends within the bytes the slices cover. */
  lemma SliceBound(lens: seq<nat>, k: nat, offset: nat, total: nat)
    requires k < |lens| && total <= Sum(lens[..k])
    ensures offset + total + lens[k] <= offset + Sum(lens)
  {
    SumPrefixGrows(lens, k + 1, |lens|);
    PrefixSum(lens, k);
    assert lens[..|lens|] == lens;
  }

  /** The outcome of one turn: a read of 0 ends the loop, a read of n > 0 fills slice k. */
  lemma SliceStep(now: seq<seq<u8>>, before: seq<seq<u8>>, lens: seq<nat>, want: seq<u8>,
                  offset: nat, total: nat, k: nat, n: nat, got: seq<u8>)
    requires k < |lens| && k <= FirstEmpty(lens)
    requires Filled(now, before, lens, want, offset, total, k)
    requires total == (if offset < |want| then Min(Sum(lens[..k]), |want| - offset) else 0)
    requires |got| == lens[k]
    requires n == (if offset + total < |want| then Min(offset + total + |got|, |want|) - (offset + total) else 0)
    requires forall i :: 0 <= i < n ==> offset + total + i < |want| && got[i] == want[offset + total + i]
    requires forall i :: n <= i < |got| ==> got[i] == now[k][i]
    ensures n == 0 ==> now[k := got] == now && total == ReadAmount(offset, lens, |want|)
    ensures n > 0 ==> && k + 1 <= FirstEmpty(lens)
                      && total + n == (if offset < |want| then Min(Sum(lens[..k + 1]), |want| - offset) else 0)
                      && Filled(now[k := got], before, lens, want, offset, total + n, k + 1)
  {
    PrefixSum(lens, k);
    if n == 0 {
      assert got == now[k];
      ReadStops(lens, k, offset, |want|, total);
    } else {
      ReadStep(now, before, lens, want, offset, total, k, n, got);
    }
  }

  /** A prefix sum one slice longer. */
  lemma PrefixSum(lens: seq<nat>, k: nat)
    requires k < |lens|
    ensures Sum(lens[..k + 1]) == Sum(lens[..k]) + lens[k]
  {
    assert lens[..k + 1] == lens[..k] + [lens[k]];
    SumAppend(lens[..k], [lens[k]]);
  }

  /** A read of 0 at slice k ends the loop with ReadAmount transferred. */
  lemma ReadStops(lens: seq<nat>, k: nat, off0: nat, size: nat, total: nat)
    requires k < |lens| && k <= FirstEmpty(lens)
    requires total == (if off0 < size then Min(Sum(lens[..k]), size - off0) else 0)
    requires lens[k] == 0 || off0 + total >= size
    ensures total == ReadAmount(off0, lens, size)
  {
    var z := FirstEmpty(lens);
    if lens[k] != 0 || k < z {
      SumPrefixGrows(lens, k, z);
    }
  }

  /** Reading n > 0 bytes into slice k extends the filled part by exactly that slice's prefix. */
  lemma ReadStep(now: seq<seq<u8>>, before: seq<seq<u8>>, lens: seq<nat>, want: seq<u8>,
                 off0: nat, total: nat, k: nat, n: nat, got: seq<u8>)
    requires k < |lens| && 0 < n
    requires Filled(now, before, lens, want, off0, total, k)
    requires total == (if off0 < |want| then Min(Sum(lens[..k]), |want| - off0) else 0)
    requires Sum(lens[..k + 1]) == Sum(lens[..k]) + lens[k] && |got| == lens[k]
    requires n == (if off0 + total < |want| then Min(off0 + total + lens[k], |want|) - (off0 + total) else 0)
    requires forall i :: 0 <= i < n ==> off0 + total + i < |want| && got[i] == want[off0 + total + i]
    requires forall i :: n <= i < |got| ==> got[i] == now[k][i]
    ensures total + n == (if off0 < |want| then Min(Sum(lens[..k + 1]), |want| - off0) else 0)
    ensures Filled(now[k := got], before, lens, want, off0, total + n, k + 1)
  {
    assert total == Sum(lens[..k]);
    var next := now[k := got];
    forall j | 0 <= j < k
      ensures SliceInto(next[j], before[j], want, off0 + Sum(lens[..j]), total + n - Sum(lens[..j]))
    {
      PrefixSum(lens, j);
      SumPrefixGrows(lens, j + 1, k);
      assert SliceInto(now[j], before[j], want, off0 + Sum(lens[..j]), total - Sum(lens[..j]));
    }
    assert SliceInto(next[k], before[k], want, off0 + Sum(lens[..k]), total + n - Sum(lens[..k]));
  }

  /** The slices after the last one read are untouched, and their positions lie past `total`. */
  lemma ReadRest(now: seq<seq<u8>>, before: seq<seq<u8>>, lens: seq<nat>, want: seq<u8>,
                 off0: nat, total: nat, k: nat)
    requires Filled(now, before, lens, want, off0, total, k) && total <= Sum(lens[..k])
    ensures forall j :: 0 <= j < |now| ==>
      SliceInto(now[j], before[j], want, off0 + Sum(lens[..j]), total - Sum(lens[..j]))
  {
    forall j | k <= j < |now|
      ensures SliceInto(now[j], before[j], want, off0 + Sum(lens[..j]), total - Sum(lens[..j]))
    {
      SumPrefixGrows(lens, k, j);
    }
  }

  /** One write_at is a growth step. */
  lemma UpdatedExtends(fs: EasyFileSystem, area: nat, before: seq<Block>, after: seq<Block>, node: Inode, n: nat)
    requires Aligned(node) && Updated(fs, area, before, after, node, n)
    ensures Extended(fs, area, before, after, node, n)
  {
  }

  /** Growth to n1 followed by a write_at growing to n2 >= n1 is growth to n2. */
  lemma ExtendedThenUpdated(fs: EasyFileSystem, area: nat, before: seq<Block>, cur: seq<Block>, after: seq<Block>,
                            node: Inode, n1: nat, n2: nat)
    requires Aligned(node) && n1 <= n2
    requires Extended(fs, area, before, cur, node, n1) && Updated(fs, area, cur, after, node, n2)
    ensures Extended(fs, area, before, after, node, n2)
    ensures n1 <= DiskInodeOf(cur, node).size as int
  {
    forall b: nat | b < area && IsSet(before, fs.dataBitmap, b)
      ensures IsSet(after, fs.dataBitmap, b)
    {
      assert IsSet(cur, fs.dataBitmap, b);
    }
    forall other | IsSlot(fs, other) && other != node
      ensures DiskInodeOf(after, other) == DiskInodeOf(before, other)
    {
      assert DiskInodeOf(cur, other) == DiskInodeOf(before, other);
    }
  }

  lemma TotalBlocksGrow(a: u32, b: u32)
    requires a <= b <= MAX_FILE_SIZE
    ensures TotalBlocks(a) <= TotalBlocks(b)
  {
    assert DataBlocks(a) <= DataBlocks(b);
    TotalMonotone(DataBlocks(a), DataBlocks(b));
    TotalClosedForm(DataBlocks(a));
    TotalClosedForm(DataBlocks(b));
  }

  /** Once every slice is written, the file holds their concatenation and keeps the rest. */
  lemma WroteAll(fs: EasyFileSystem, area: nat, before: seq<Block>, after: seq<Block>, node: Inode,
                 bufs: seq<seq<u8>>, off0: nat)
    requires |bufs| > 0 && Progress(fs, area, before, after, node, bufs, off0, |bufs|)
    ensures Stored(fs, area, before, after, node, off0, Concat(bufs))
  {
    assert bufs[..|bufs|] == bufs;
  }

  /** Nothing is written yet. */
  lemma StartWrite(fs: EasyFileSystem, area: nat, before: seq<Block>, node: Inode, bufs: seq<seq<u8>>, off0: nat)
    requires Setup(fs, area, before, node, bufs, off0)
    ensures Progress(fs, area, before, before, node, bufs, off0, 0)
  {
    assert bufs[..0] == [];
  }

  /** Once k slices are written, the device is ready for write_at of slice k. */
  lemma ProgressReady(fs: EasyFileSystem, area: nat, cur: seq<Block>, node: Inode,
                      bufs: seq<seq<u8>>, off0: nat, k: nat, offset: nat)
    requires k < |bufs| && offset == off0 + |Concat(bufs[..k])|
    requires Current(fs, area, cur, node, off0 + |Concat(bufs)|) && StartsInside(bufs, off0)
    ensures Ready(fs, area, cur, node, offset, |bufs[k]|)
  {
    SliceWithin(bufs, k);
    WriteReady(fs, area, cur, node, off0 + |Concat(bufs)|, offset, |bufs[k]|);
  }

  /** A device with room up to `final` can take a write_at starting inside the largest file and ending before `final`. */
  lemma WriteReady(fs: EasyFileSystem, area: nat, cur: seq<Block>, node: Inode, final: nat, offset: nat, len: nat)
    requires Current(fs, area, cur, node, final) && offset < MAX_FILE_SIZE && offset + len <= final
    ensures Ready(fs, area, cur, node, offset, len)
  {
    var inode := DiskInodeOf(cur, node);
    if inode.size < offset + len {
      TotalBlocksGrow(offset + len, final);
    }
  }

  /** A write_at ending before `final` leaves room for the rest up to `final`. */
  lemma RoomKept(fs: EasyFileSystem, area: nat, before: seq<Block>, cur: seq<Block>, after: seq<Block>, node: Inode,
                 bufs: seq<seq<u8>>, off0: nat, k: nat, offset: nat)
    requires k < |bufs| && offset == off0 + |Concat(bufs[..k])|
    requires Progress(fs, area, before, cur, node, bufs, off0, k)
    requires offset + |bufs[k]| <= MAX_FILE_SIZE
    requires Wrote(fs, area, cur, after, node, offset, bufs[k])
    ensures Current(fs, area, after, node, off0 + |Concat(bufs)|)
  {
    SliceWithin(bufs, k);
  }

  /** write_at of slice k carries Progress from k to k + 1 slices. */
  lemma Advance(fs: EasyFileSystem, area: nat, before: seq<Block>, cur: seq<Block>, after: seq<Block>, node: Inode,
                bufs: seq<seq<u8>>, off0: nat, k: nat, offset: nat)
    requires k < |bufs| && offset == off0 + |Concat(bufs[..k])|
    requires Progress(fs, area, before, cur, node, bufs, off0, k)
    requires offset + |bufs[k]| <= MAX_FILE_SIZE
    requires Wrote(fs, area, cur, after, node, offset, bufs[k])
    ensures Progress(fs, area, before, after, node, bufs, off0, k + 1)
  {
    SliceWithin(bufs, k);
    RoomKept(fs, area, before, cur, after, node, bufs, off0, k, offset);
    ProgressReached(fs, area, before, cur, node, bufs, off0, k);
    WroteUpdated(fs, area, cur, after, node, offset, bufs[k]);
    SliceEnd(bufs, k, off0, offset);
    ReachedNext(fs, area, before, cur, after, node, bufs, off0, k, offset);
    BytesKept(fs, area, before, cur, after, node, bufs, off0, k, offset);
  }

  /** write_at of slice k carries Reached from k slices to k + 1. */
  lemma ReachedNext(fs: EasyFileSystem, area: nat, before: seq<Block>, cur: seq<Block>, after: seq<Block>, node: Inode,
                    bufs: seq<seq<u8>>, off0: nat, k: nat, offset: nat)
    requires k < |bufs| && offset == off0 + |Concat(bufs[..k])| && Aligned(node)
    requires offset + |bufs[k]| == off0 + |Concat(bufs[..k + 1])|
    requires Reached(fs, area, before, cur, node, off0 + |Concat(bufs[..k])|, k)
    requires Updated(fs, area, cur, after, node, offset + |bufs[k]|)
    ensures Reached(fs, area, before, after, node, off0 + |Concat(bufs[..k + 1])|, k + 1)
  {
    var next := off0 + |Concat(bufs[..k + 1])|;
    if k == 0 {
      assert cur == before;
      UpdatedExtends(fs, area, cur, after, node, next);
    } else {
      assert Extended(fs, area, before, cur, node, offset);
      ExtendedThenUpdated(fs, area, before, cur, after, node, offset, next);
    }
    assert Extended(fs, area, before, after, node, next);
  }

  /** Slice k ends where the first k + 1 slices end. */
  lemma SliceEnd(bufs: seq<seq<u8>>, k: nat, off0: nat, offset: nat)
    requires k < |bufs| && offset == off0 + |Concat(bufs[..k])|
    ensures offset + |bufs[k]| == off0 + |Concat(bufs[..k + 1])|
  {
    SliceWithin(bufs, k);
  }

  /** The growth recorded by Progress. */
  lemma ProgressReached(fs: EasyFileSystem, area: nat, before: seq<Block>, cur: seq<Block>, node: Inode,
                        bufs: seq<seq<u8>>, off0: nat, k: nat)
    requires Progress(fs, area, before, cur, node, bufs, off0, k)
    ensures Aligned(node) && Reached(fs, area, before, cur, node, off0 + |Concat(bufs[..k])|, k)
  {
  }

  /** The growth recorded by Wrote. */
  lemma WroteUpdated(fs: EasyFileSystem, area: nat, cur: seq<Block>, after: seq<Block>, node: Inode, offset: nat, slice: seq<u8>)
    requires Aligned(node) && offset + |slice| <= MAX_FILE_SIZE
    requires Wrote(fs, area, cur, after, node, offset, slice)
    ensures Updated(fs, area, cur, after, node, offset + |slice|)
  {
  }

  /** A file grown over the slices written so far is at least as long as they reach. */
  lemma ReachedSize(fs: EasyFileSystem, area: nat, before: seq<Block>, cur: seq<Block>, node: Inode, reached: nat, k: nat)
    requires Aligned(node) && Reached(fs, area, before, cur, node, reached, k)
    ensures k > 0 ==> reached <= DiskInodeOf(cur, node).size as int
  {
  }

  /** A write_at of slice k puts its bytes after those of the slices before it. */
  lemma BytesKept(fs: EasyFileSystem, area: nat, before: seq<Block>, cur: seq<Block>, after: seq<Block>, node: Inode,
                  bufs: seq<seq<u8>>, off0: nat, k: nat, offset: nat)
    requires k < |bufs| && offset == off0 + |Concat(bufs[..k])|
    requires Progress(fs, area, before, cur, node, bufs, off0, k)
    requires offset + |bufs[k]| <= MAX_FILE_SIZE
    requires Wrote(fs, area, cur, after, node, offset, bufs[k])
    ensures Bytes(DiskInodeOf(after, node), after, DiskInodeOf(before, node), before, off0, Concat(bufs[..k + 1]))
  {
    ReachedSize(fs, area, before, cur, node, off0 + |Concat(bufs[..k])|, k);
    NextBytes(fs, area, cur, after, node, bufs, k, off0, offset, DiskInodeOf(before, node), before);
  }

  /** write_at of the slice after `prior`: the file now holds `prior + slice`. */
  lemma NextBytes(fs: EasyFileSystem, area: nat, cur: seq<Block>, after: seq<Block>, node: Inode,
                  bufs: seq<seq<u8>>, k: nat, off0: nat, offset: nat, start: DiskInode, before: seq<Block>)
    requires k < |bufs| && Aligned(node) && start.Shaped() && Sized(start)
    requires offset == off0 + |Concat(bufs[..k])| && offset + |bufs[k]| <= MAX_FILE_SIZE
    requires Bytes(DiskInodeOf(cur, node), cur, start, before, off0, Concat(bufs[..k]))
    requires Wrote(fs, area, cur, after, node, offset, bufs[k])
    requires Owned(fs, area, cur, DiskInodeOf(cur, node))
    requires k > 0 ==> offset <= DiskInodeOf(cur, node).size as int
    ensures Bytes(DiskInodeOf(after, node), after, start, before, off0, Concat(bufs[..k + 1]))
  {
    if k == 0 {
      assert bufs[..k] == [];
    }
    ConcatStep(bufs, k);
    SliceBytes(Concat(bufs[..k]), bufs[k], off0, offset, start, before, DiskInodeOf(cur, node), cur, DiskInodeOf(after, node), after);
  }

  /** The bytes of slice k land after those of the slices before it. */
  lemma SliceBytes(prior: seq<u8>, slice: seq<u8>, off0: nat, offset: nat,
                   start: DiskInode, before: seq<Block>, inode: DiskInode, cur: seq<Block>, r: DiskInode, after: seq<Block>)
    requires start.Shaped() && inode.Shaped() && r.Shaped() && Sized(start) && Sized(inode)
    requires offset == off0 + |prior| && offset + |slice| <= MAX_FILE_SIZE
    requires inode.size <= r.size
    requires Bytes(inode, cur, start, before, off0, prior)
    requires forall p :: offset <= p < offset + |slice| ==> ByteAt(r, after, p) == slice[p - offset]
    requires forall p :: 0 <= p < inode.size as int && !(offset <= p < offset + |slice|) ==>
      ByteAt(r, after, p) == ByteAt(inode, cur, p)
    requires |prior| > 0 ==> offset <= inode.size as int
    ensures Bytes(r, after, start, before, off0, prior + slice)
  {
  }
}
