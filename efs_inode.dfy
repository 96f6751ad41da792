/**
 * DiskInode of easy-fs: a 128-byte record holding a file's size, 28 direct
 * block ids, one singly-indirect and one doubly-indirect index block.
 */
module EfsInode {
  import opened Words
  import opened EfsBlock

  const INODE_DIRECT_COUNT: nat := 28
  /** Entries of an index block, 512 / 4 = 128; arithmetic below writes 128 out. */
  const INODE_INDIRECT1_COUNT: nat := 128
  const DIRECT_BOUND: nat := 28
  /** 28 + 128. */
  const INDIRECT1_BOUND: nat := 156
  /** Data blocks reachable through the index structure, 156 + 128 * 128; get_block_id fails past this. */
  const MAX_DATA_BLOCKS: nat := 16540
  /** Bytes those blocks hold, 16540 * 512. */
  const MAX_FILE_SIZE: nat := 8468480

  datatype DiskInodeType = File | Directory

  datatype DiskInode = DiskInode(size: u32, direct: seq<u32>, indirect1: u32, indirect2: u32, kind: DiskInodeType)
  {
    ghost predicate Shaped() {
      |direct| == INODE_DIRECT_COUNT
    }

    predicate IsDir() {
      kind == Directory
    }

    predicate IsFile() {
      kind == File
    }
  }

  /** DiskInode::initialize. */
  function Initialized(kind: DiskInodeType): (r: DiskInode)
    ensures r.Shaped() && r.size == 0 && r.kind == kind
    ensures forall i :: 0 <= i < INODE_DIRECT_COUNT ==> r.direct[i] == 0
    ensures r.indirect1 == 0 && r.indirect2 == 0
    ensures r.IsDir() <==> kind == Directory
    ensures r.IsFile() <==> kind == File
  {
    DiskInode(0, seq(INODE_DIRECT_COUNT, _ => 0), 0, 0, kind)
  }

  /** _data_blocks: ceil(size / 512) in u32 arithmetic, where `size + 511` wraps. */
  function DataBlocks(size: u32): (n: nat)
    ensures size + 511 < 0x1_0000_0000 ==> (n - 1) * 512 < size <= n * 512
    ensures size + 511 < 0x1_0000_0000 ==> n == (size + 511) / 512
  {
    ((size + 511) % 0x1_0000_0000) / 512
  }

  /** How many index blocks come into use together with data block `i`. */
  function BoundaryCount(i: nat): nat {
    if i == DIRECT_BOUND then 1
    else if i == INDIRECT1_BOUND then 2
    else if i > INDIRECT1_BOUND && (i - INDIRECT1_BOUND) % 128 == 0 then 1
    else 0
  }

  /** Blocks (data and index) occupied by a file of `d` data blocks, counted block by block. */
  function Total(d: nat): (t: nat)
    ensures t >= d
  {
    if d == 0 then 0 else Total(d - 1) + 1 + BoundaryCount(d - 1)
  }

  /** DiskInode::total_blocks, in closed form, for `d` data blocks. */
  function TotalBlocksOf(d: nat): nat {
    d + (if d > DIRECT_BOUND then 1 else 0)
      + (if d > INDIRECT1_BOUND then 1 + (d - INDIRECT1_BOUND + INODE_INDIRECT1_COUNT - 1) / 128 else 0)
  }

  /** DiskInode::total_blocks. */
  function TotalBlocks(size: u32): nat {
    TotalBlocksOf(DataBlocks(size))
  }

  lemma CeilStep(x: nat)
    requires x >= 1
    ensures (x + 128) / 128 == (x + 127) / 128 + (if x % 128 == 0 then 1 else 0)
  {
    var q := x / 128;
    var r := x % 128;
    assert x == 128 * q + r;
    assert (x + 128) / 128 == q + 1;
    if r == 0 {
      assert (x + 127) / 128 == q;
    } else {
      assert (x + 127) / 128 == q + 1;
    }
  }

  /** The closed form of total_blocks counts exactly the blocks of the layout. */
  lemma {:induction false} TotalClosedForm(d: nat)
    ensures Total(d) == TotalBlocksOf(d)
  {
    if d > 0 {
      TotalClosedForm(d - 1);
      if d - 1 > INDIRECT1_BOUND {
        CeilStep(d - 1 - INDIRECT1_BOUND);
      }
    }
  }

  /** One more data block adds itself and the index blocks it brings in. */
  lemma TotalStep(d: nat)
    ensures Total(d + 1) == Total(d) + 1 + BoundaryCount(d)
  {
  }

  lemma {:induction false} TotalMonotone(d1: nat, d2: nat)
    requires d1 <= d2
    ensures Total(d1) + (d2 - d1) <= Total(d2)
  {
    if d1 < d2 {
      TotalMonotone(d1, d2 - 1);
    }
  }

  /** DiskInode::blocks_num_needed: the difference of total_blocks, as a u32. */
  function BlocksNumNeeded(inode: DiskInode, newSize: u32): (n: nat)
    requires newSize >= inode.size
    ensures newSize + BLOCK_SZ - 1 < U32_LIMIT ==> n == TotalBlocks(newSize) - TotalBlocks(inode.size)
  {
    if newSize + BLOCK_SZ - 1 < U32_LIMIT then
      TotalMonotone(DataBlocks(inode.size), DataBlocks(newSize));
      TotalClosedForm(DataBlocks(inode.size));
      TotalClosedForm(DataBlocks(newSize));
      TotalBlocks(newSize) - TotalBlocks(inode.size)
    else
      (TotalBlocks(newSize) - TotalBlocks(inode.size)) % U32_LIMIT
  }

  /** Entry `a` of the doubly-indirect block: the id of a singly-indirect block. */
  function L1Id(inode: DiskInode, blocks: seq<Block>, a: nat): u32
    requires a < INODE_INDIRECT1_COUNT
  {
    Entry(Read(blocks, inode.indirect2), a)
  }

  /** DiskInode::get_block_id: the device block holding data block `i` of the file. */
  function BlockId(inode: DiskInode, blocks: seq<Block>, i: nat): u32
    requires inode.Shaped() && i < MAX_DATA_BLOCKS
  {
    if i < DIRECT_BOUND then inode.direct[i]
    else if i < INDIRECT1_BOUND then Entry(Read(blocks, inode.indirect1), i - DIRECT_BOUND)
    else
      var j := i - INDIRECT1_BOUND;
      Entry(Read(blocks, L1Id(inode, blocks, j / 128)), j % 128)
  }

  /** The index blocks that come into use together with data block `i`. */
  function Boundary(inode: DiskInode, blocks: seq<Block>, i: nat): (r: seq<u32>)
    requires i < MAX_DATA_BLOCKS
    ensures |r| == BoundaryCount(i)
  {
    if i == DIRECT_BOUND then [inode.indirect1]
    else if i == INDIRECT1_BOUND then [inode.indirect2, L1Id(inode, blocks, 0)]
    else if i > INDIRECT1_BOUND && (i - INDIRECT1_BOUND) % 128 == 0 then
      [L1Id(inode, blocks, (i - INDIRECT1_BOUND) / 128)]
    else []
  }

  /**
   * Every block a file of `n` data blocks occupies, in the order they are
   * allocated: each data block preceded by the index blocks it brings in.
   */
  function LayoutUpTo(inode: DiskInode, blocks: seq<Block>, n: nat): (r: seq<u32>)
    requires inode.Shaped() && n <= MAX_DATA_BLOCKS
    ensures |r| == Total(n)
  {
    if n == 0 then [] else LayoutUpTo(inode, blocks, n - 1) + Boundary(inode, blocks, n - 1) + [BlockId(inode, blocks, n - 1)]
  }

  /** One step of the layout, unfolded. */
  lemma LayoutStep(inode: DiskInode, blocks: seq<Block>, n: nat)
    requires inode.Shaped() && 0 < n <= MAX_DATA_BLOCKS
    ensures LayoutUpTo(inode, blocks, n)
      == LayoutUpTo(inode, blocks, n - 1) + Boundary(inode, blocks, n - 1) + [BlockId(inode, blocks, n - 1)]
  {
  }

  /** Indexing into a sequence extended by `b` and then `c`. */
  lemma AppendIndex(a: seq<u32>, b: seq<u32>, c: u32, p: nat)
    ensures p < |a| ==> (a + b + [c])[p] == a[p]
    ensures |a| <= p < |a| + |b| ==> (a + b + [c])[p] == b[p - |a|]
    ensures p == |a| + |b| ==> (a + b + [c])[p] == c
  {
  }

  lemma AppendCong(a1: seq<u32>, a2: seq<u32>, b1: seq<u32>, b2: seq<u32>, c1: u32, c2: u32)
    requires a1 == a2 && b1 == b2 && c1 == c2
    ensures a1 + b1 + [c1] == a2 + b2 + [c2]
  {
  }

  /** Position of data block `i` within the layout. */
  function DataPos(i: nat): nat {
    Total(i) + BoundaryCount(i)
  }

  /** Position of the singly-indirect block of entry `a` of the doubly-indirect block. */
  function L1Pos(a: nat): nat {
    Total(INDIRECT1_BOUND + 128 * a) + (if a == 0 then 1 else 0)
  }

  /** Growing the file only appends to its layout: earlier positions keep their block. */
  lemma {:induction false} LayoutKeeps(inode: DiskInode, blocks: seq<Block>, m: nat, n: nat, p: nat)
    requires inode.Shaped() && m <= n <= MAX_DATA_BLOCKS && p < Total(m)
    ensures p < Total(n) && LayoutUpTo(inode, blocks, n)[p] == LayoutUpTo(inode, blocks, m)[p]
  {
    if m < n {
      LayoutKeeps(inode, blocks, m, n - 1, p);
      LayoutStep(inode, blocks, n);
      AppendIndex(LayoutUpTo(inode, blocks, n - 1), Boundary(inode, blocks, n - 1), BlockId(inode, blocks, n - 1), p);
    }
  }

  /** The last block of a layout is its last data block. */
  lemma LastIsData(inode: DiskInode, blocks: seq<Block>, i: nat)
    requires inode.Shaped() && i < MAX_DATA_BLOCKS
    ensures LayoutUpTo(inode, blocks, i + 1)[DataPos(i)] == BlockId(inode, blocks, i)
  {
    LayoutStep(inode, blocks, i + 1);
    AppendIndex(LayoutUpTo(inode, blocks, i), Boundary(inode, blocks, i), BlockId(inode, blocks, i), DataPos(i));
  }

  /** The index blocks brought in by data block `i` sit between data blocks i-1 and i. */
  lemma BoundaryIn(inode: DiskInode, blocks: seq<Block>, i: nat, k: nat)
    requires inode.Shaped() && i < MAX_DATA_BLOCKS && k < BoundaryCount(i)
    ensures LayoutUpTo(inode, blocks, i + 1)[Total(i) + k] == Boundary(inode, blocks, i)[k]
  {
    LayoutStep(inode, blocks, i + 1);
    AppendIndex(LayoutUpTo(inode, blocks, i), Boundary(inode, blocks, i), BlockId(inode, blocks, i), Total(i) + k);
  }

  /** Data block `i` sits at DataPos(i) of the layout. */
  lemma DataAt(inode: DiskInode, blocks: seq<Block>, n: nat, i: nat)
    requires inode.Shaped() && i < n <= MAX_DATA_BLOCKS
    ensures DataPos(i) < Total(n) && LayoutUpTo(inode, blocks, n)[DataPos(i)] == BlockId(inode, blocks, i)
  {
    LastIsData(inode, blocks, i);
    LayoutKeeps(inode, blocks, i + 1, n, DataPos(i));
  }

  /** The index blocks brought in by data block `i` sit just before it. */
  lemma BoundaryAt(inode: DiskInode, blocks: seq<Block>, i: nat, n: nat, k: nat)
    requires inode.Shaped() && i < n <= MAX_DATA_BLOCKS && k < BoundaryCount(i)
    ensures Total(i) + k < Total(n)
    ensures LayoutUpTo(inode, blocks, n)[Total(i) + k] == Boundary(inode, blocks, i)[k]
  {
    BoundaryIn(inode, blocks, i, k);
    LayoutKeeps(inode, blocks, i + 1, n, Total(i) + k);
  }

  /** Total at the two range bounds: the singly-indirect block is the 29th block, the doubly-indirect one the 158th. */
  lemma TotalAtBounds()
    ensures Total(DIRECT_BOUND) == 28 && Total(INDIRECT1_BOUND) == 157
  {
    TotalClosedForm(DIRECT_BOUND);
    TotalClosedForm(INDIRECT1_BOUND);
  }

  /** The singly-indirect block sits right after the 28 direct blocks. */
  lemma Indirect1At(inode: DiskInode, blocks: seq<Block>, n: nat)
    requires inode.Shaped() && DIRECT_BOUND < n <= MAX_DATA_BLOCKS
    ensures Total(DIRECT_BOUND) < Total(n) && LayoutUpTo(inode, blocks, n)[Total(DIRECT_BOUND)] == inode.indirect1
  {
    BoundaryAt(inode, blocks, DIRECT_BOUND, n, 0);
  }

  /** The doubly-indirect block sits right after the singly-indirect range. */
  lemma Indirect2At(inode: DiskInode, blocks: seq<Block>, n: nat)
    requires inode.Shaped() && INDIRECT1_BOUND < n <= MAX_DATA_BLOCKS
    ensures Total(INDIRECT1_BOUND) < Total(n) && LayoutUpTo(inode, blocks, n)[Total(INDIRECT1_BOUND)] == inode.indirect2
  {
    BoundaryAt(inode, blocks, INDIRECT1_BOUND, n, 0);
  }

  /** Entry b of second-level block a is data block 156 + 128a + b. */
  lemma Join2(a: nat, b: nat)
    requires b < INODE_INDIRECT1_COUNT
    ensures (128 * a + b) / 128 == a && (128 * a + b) % 128 == b
  {
  }

  /** The singly-indirect block of entry `a` of the doubly-indirect block is index block `kk` brought in by data block `j`. */
  lemma L1PosForm(a: nat) returns (j: nat, kk: nat)
    ensures j == INDIRECT1_BOUND + 128 * a && kk < BoundaryCount(j) && L1Pos(a) == Total(j) + kk
    ensures kk == (if a == 0 then 1 else 0)
  {
    j := INDIRECT1_BOUND + 128 * a;
    kk := if a == 0 then 1 else 0;
    Join2(a, 0);
  }

  /** The a-th second-level block sits just before the first data block it indexes. */
  lemma L1At(inode: DiskInode, blocks: seq<Block>, n: nat, a: nat)
    requires inode.Shaped() && a < INODE_INDIRECT1_COUNT && INDIRECT1_BOUND + 128 * a < n <= MAX_DATA_BLOCKS
    ensures L1Pos(a) < Total(n) && LayoutUpTo(inode, blocks, n)[L1Pos(a)] == L1Id(inode, blocks, a)
  {
    var i, kk := L1PosForm(a);
    DoubleAt(inode, blocks, i, a, 0);
    BoundaryAt(inode, blocks, i, n, kk);
  }

  /** Data block `i` is reached through the same ids, and the same index entries, in both states. */
  predicate SameAt(in1: DiskInode, b1: seq<Block>, in2: DiskInode, b2: seq<Block>, i: nat)
    requires in1.Shaped() && in2.Shaped() && i < MAX_DATA_BLOCKS
  {
    if i < DIRECT_BOUND then in1.direct[i] == in2.direct[i]
    else if i < INDIRECT1_BOUND then
      in1.indirect1 == in2.indirect1
      && Entry(Read(b1, in1.indirect1), i - DIRECT_BOUND) == Entry(Read(b2, in1.indirect1), i - DIRECT_BOUND)
    else
      var j := i - INDIRECT1_BOUND;
      var a := j / 128;
      in1.indirect2 == in2.indirect2 && L1Id(in1, b1, a) == L1Id(in2, b2, a)
      && Entry(Read(b1, L1Id(in1, b1, a)), j % 128) == Entry(Read(b2, L1Id(in1, b1, a)), j % 128)
  }

  lemma SameAtBlock(in1: DiskInode, b1: seq<Block>, in2: DiskInode, b2: seq<Block>, i: nat)
    requires in1.Shaped() && in2.Shaped() && i < MAX_DATA_BLOCKS
    requires SameAt(in1, b1, in2, b2, i)
    ensures Boundary(in1, b1, i) == Boundary(in2, b2, i)
    ensures BlockId(in1, b1, i) == BlockId(in2, b2, i)
  {
    if i >= INDIRECT1_BOUND && (i - INDIRECT1_BOUND) % 128 == 0 {
      assert (i - INDIRECT1_BOUND) / 128 == (i - INDIRECT1_BOUND) / 128;
    }
  }

  /** The layout of the first `n` data blocks depends only on the entries read to reach them. */
  lemma {:induction false} LayoutFrame(in1: DiskInode, b1: seq<Block>, in2: DiskInode, b2: seq<Block>, n: nat)
    requires in1.Shaped() && in2.Shaped() && n <= MAX_DATA_BLOCKS
    requires forall i :: 0 <= i < n ==> SameAt(in1, b1, in2, b2, i)
    ensures LayoutUpTo(in1, b1, n) == LayoutUpTo(in2, b2, n)
  {
    if n > 0 {
      LayoutFrame(in1, b1, in2, b2, n - 1);
      SameAtBlock(in1, b1, in2, b2, n - 1);
      LayoutStep(in1, b1, n);
      LayoutStep(in2, b2, n);
      AppendCong(LayoutUpTo(in1, b1, n - 1), LayoutUpTo(in2, b2, n - 1),
                 Boundary(in1, b1, n - 1), Boundary(in2, b2, n - 1), BlockId(in1, b1, n - 1), BlockId(in2, b2, n - 1));
      assert LayoutUpTo(in1, b1, n) == LayoutUpTo(in1, b1, n - 1) + Boundary(in1, b1, n - 1) + [BlockId(in1, b1, n - 1)];
    }
  }

  /** The disk after entry `k` of index block `id` is set to `v`. */
  function WriteEntry(blocks: seq<Block>, id: nat, k: nat, v: u32): (r: seq<Block>)
    requires id < |blocks| && k < ENTRIES
    ensures |r| == |blocks|
    ensures Entry(Read(r, id), k) == v
    ensures forall j :: 0 <= j < ENTRIES && j != k ==> Entry(Read(r, id), j) == Entry(Read(blocks, id), j)
    ensures forall other :: other != id ==> Read(r, other) == Read(blocks, other)
  {
    blocks[id := SetEntry(blocks[id], k, v)]
  }

  /** Filling direct slot `n` appends that data block to the layout. */
  lemma DirectStep(inode: DiskInode, blocks: seq<Block>, n: nat, x: u32)
    requires inode.Shaped() && n < DIRECT_BOUND
    ensures var next := inode.(direct := inode.direct[n := x]);
      next.Shaped() && LayoutUpTo(next, blocks, n + 1) == LayoutUpTo(inode, blocks, n) + [x]
  {
    var next := inode.(direct := inode.direct[n := x]);
    LayoutFrame(inode, blocks, next, blocks, n);
  }

  /** Filling entry n-28 of the singly-indirect block appends that data block (and, first, the index block). */
  lemma Indirect1Step(inode: DiskInode, blocks: seq<Block>, n: nat, x: u32)
    requires inode.Shaped() && DIRECT_BOUND <= n < INDIRECT1_BOUND && inode.indirect1 < |blocks|
    ensures var after := WriteEntry(blocks, inode.indirect1, n - DIRECT_BOUND, x);
      LayoutUpTo(inode, after, n + 1) == LayoutUpTo(inode, blocks, n) + (if n == DIRECT_BOUND then [inode.indirect1] else []) + [x]
  {
    var after := WriteEntry(blocks, inode.indirect1, n - DIRECT_BOUND, x);
    forall i | 0 <= i < n
      ensures SameAt(inode, blocks, inode, after, i)
    {
    }
    LayoutFrame(inode, blocks, inode, after, n);
  }

  /** Where data block `i` sits in the doubly-indirect range: entry `r` of the block of entry `a`. */
  lemma Split2(i: nat) returns (a: nat, r: nat)
    requires INDIRECT1_BOUND <= i
    ensures i == INDIRECT1_BOUND + 128 * a + r && r < INODE_INDIRECT1_COUNT
    ensures a == (i - INDIRECT1_BOUND) / 128 && r == (i - INDIRECT1_BOUND) % 128
  {
    a := (i - INDIRECT1_BOUND) / 128;
    r := (i - INDIRECT1_BOUND) % 128;
  }

  lemma Split2Order(i: nat, a0: nat, b0: nat)
    requires INDIRECT1_BOUND <= i < INDIRECT1_BOUND + 128 * a0 + b0 && b0 < INODE_INDIRECT1_COUNT
    ensures var a := (i - INDIRECT1_BOUND) / 128;
      a < a0 || (a == a0 && (i - INDIRECT1_BOUND) % 128 < b0)
  {
    var a, r := Split2(i);
  }

  /** Data block `i` in the doubly-indirect range is reached the same way when the two entries it reads agree. */
  lemma SameAtDouble(inode: DiskInode, b1: seq<Block>, b2: seq<Block>, i: nat)
    requires inode.Shaped() && INDIRECT1_BOUND <= i < MAX_DATA_BLOCKS
    requires var a := (i - INDIRECT1_BOUND) / 128;
      L1Id(inode, b1, a) == L1Id(inode, b2, a)
      && Entry(Read(b1, L1Id(inode, b1, a)), (i - INDIRECT1_BOUND) % 128)
         == Entry(Read(b2, L1Id(inode, b1, a)), (i - INDIRECT1_BOUND) % 128)
    ensures SameAt(inode, b1, inode, b2, i)
  {
  }

  /** The index blocks data block 156 + 128a + b brings in: none inside a second-level block, else that block (after the doubly-indirect one, first time). */
  function DoubleBoundary(indirect2: u32, a: nat, b: nat, l1: u32): seq<u32> {
    if b != 0 then [] else if a == 0 then [indirect2, l1] else [l1]
  }

  /** Data block 156 + 128a + b is entry b of second-level block a, and brings in the index blocks DoubleBoundary names. */
  lemma DoubleAt(inode: DiskInode, blocks: seq<Block>, n: nat, a: nat, b: nat)
    requires inode.Shaped() && a < INODE_INDIRECT1_COUNT && b < INODE_INDIRECT1_COUNT
    requires n == INDIRECT1_BOUND + 128 * a + b
    ensures BlockId(inode, blocks, n) == Entry(Read(blocks, L1Id(inode, blocks, a)), b)
    ensures Boundary(inode, blocks, n) == DoubleBoundary(inode.indirect2, a, b, L1Id(inode, blocks, a))
  {
    Join2(a, b);
  }

  /** Appending data block `n` once its position in the doubly-indirect range reads as (l1, x). */
  lemma AppendDouble(inode: DiskInode, before: seq<Block>, after: seq<Block>, n: nat, a0: nat, b0: nat, l1: u32, x: u32)
    requires inode.Shaped() && a0 < INODE_INDIRECT1_COUNT && b0 < INODE_INDIRECT1_COUNT
    requires n == INDIRECT1_BOUND + 128 * a0 + b0
    requires LayoutUpTo(inode, after, n) == LayoutUpTo(inode, before, n)
    requires L1Id(inode, after, a0) == l1 && Entry(Read(after, l1), b0) == x
    ensures LayoutUpTo(inode, after, n + 1) == LayoutUpTo(inode, before, n) + DoubleBoundary(inode.indirect2, a0, b0, l1) + [x]
  {
    DoubleAt(inode, after, n, a0, b0);
    LayoutStep(inode, after, n + 1);
    AppendCong(LayoutUpTo(inode, after, n), LayoutUpTo(inode, before, n),
               Boundary(inode, after, n), DoubleBoundary(inode.indirect2, a0, b0, l1), BlockId(inode, after, n), x);
  }

  /**
   * Writes that leave the singly-indirect block, and every second-level
   * block and entry met below data block 156 + 128a0 + b0, as they were
   * leave the layout up to that block as it was.
   */
  lemma FrameBelow(inode: DiskInode, b1: seq<Block>, b2: seq<Block>, n: nat, a0: nat, b0: nat)
    requires inode.Shaped() && a0 < INODE_INDIRECT1_COUNT && b0 < INODE_INDIRECT1_COUNT
    requires n == INDIRECT1_BOUND + 128 * a0 + b0
    requires Read(b2, inode.indirect1) == Read(b1, inode.indirect1)
    requires forall a :: 0 <= a < a0 ==>
      L1Id(inode, b2, a) == L1Id(inode, b1, a) && Read(b2, L1Id(inode, b1, a)) == Read(b1, L1Id(inode, b1, a))
    requires b0 > 0 ==> L1Id(inode, b2, a0) == L1Id(inode, b1, a0)
    requires forall r :: 0 <= r < b0 ==> Entry(Read(b2, L1Id(inode, b1, a0)), r) == Entry(Read(b1, L1Id(inode, b1, a0)), r)
    ensures LayoutUpTo(inode, b2, n) == LayoutUpTo(inode, b1, n)
  {
    forall i | 0 <= i < n
      ensures SameAt(inode, b1, inode, b2, i)
    {
      if i >= INDIRECT1_BOUND {
        Split2Order(i, a0, b0);
        SameAtDouble(inode, b1, b2, i);
      }
    }
    LayoutFrame(inode, b1, inode, b2, n);
  }

  /**
   * The first data block behind a fresh second-level block `y`: `y` is
   * recorded in entry a0 of the doubly-indirect block, then its entry 0 is set to `x`.
   */
  lemma Indirect2NewStep(inode: DiskInode, blocks: seq<Block>, n: nat, a0: nat, y: u32, x: u32)
    requires inode.Shaped() && a0 < INODE_INDIRECT1_COUNT && n == INDIRECT1_BOUND + 128 * a0
    requires inode.indirect2 < |blocks| && y < |blocks|
    requires y != inode.indirect2 && inode.indirect1 != inode.indirect2 && inode.indirect1 != y
    requires forall a :: 0 <= a < a0 ==> L1Id(inode, blocks, a) != y && L1Id(inode, blocks, a) != inode.indirect2
    ensures var after := WriteEntry(WriteEntry(blocks, inode.indirect2, a0, y), y, 0, x);
      LayoutUpTo(inode, after, n + 1) == LayoutUpTo(inode, blocks, n) + DoubleBoundary(inode.indirect2, a0, 0, y) + [x]
  {
    var mid := WriteEntry(blocks, inode.indirect2, a0, y);
    var after := WriteEntry(mid, y, 0, x);
    assert Read(after, inode.indirect2) == Read(mid, inode.indirect2);
    forall a | 0 <= a < a0
      ensures L1Id(inode, after, a) == L1Id(inode, blocks, a)
      ensures Read(after, L1Id(inode, blocks, a)) == Read(blocks, L1Id(inode, blocks, a))
    {
      var l := L1Id(inode, blocks, a);
      assert Read(after, l) == Read(mid, l);
    }
    assert Read(after, inode.indirect1) == Read(mid, inode.indirect1);
    FrameBelow(inode, blocks, after, n, a0, 0);
    AppendDouble(inode, blocks, after, n, a0, 0, y, x);
  }

  /** A further data block, entry b0 > 0 of the existing second-level block of entry a0. */
  lemma Indirect2OldStep(inode: DiskInode, blocks: seq<Block>, n: nat, a0: nat, b0: nat, x: u32)
    requires inode.Shaped() && a0 < INODE_INDIRECT1_COUNT && 0 < b0 < INODE_INDIRECT1_COUNT
    requires n == INDIRECT1_BOUND + 128 * a0 + b0
    requires var l1 := L1Id(inode, blocks, a0);
      l1 < |blocks| && l1 != inode.indirect2 && l1 != inode.indirect1
      && forall a :: 0 <= a < a0 ==> L1Id(inode, blocks, a) != l1
    ensures var after := WriteEntry(blocks, L1Id(inode, blocks, a0), b0, x);
      LayoutUpTo(inode, after, n + 1) == LayoutUpTo(inode, blocks, n) + [x]
  {
    var l1 := L1Id(inode, blocks, a0);
    var after := WriteEntry(blocks, l1, b0, x);
    assert Read(after, inode.indirect2) == Read(blocks, inode.indirect2);
    FrameBelow(inode, blocks, after, n, a0, b0);
    AppendDouble(inode, blocks, after, n, a0, b0, l1, x);
  }

  predicate Distinct(s: seq<u32>) {
    forall i, j :: 0 <= i < j < |s| ==> s[i] != s[j]
  }

  /** Every id of `s` names a block of the device. */
  predicate InDevice(s: seq<u32>, blocks: seq<Block>) {
    forall i :: 0 <= i < |s| ==> s[i] < |blocks|
  }

  /** The blocks the file occupies now. */
  function Layout(inode: DiskInode, blocks: seq<Block>): (r: seq<u32>)
    requires inode.Shaped() && DataBlocks(inode.size) <= MAX_DATA_BLOCKS
    ensures |r| == Total(DataBlocks(inode.size))
  {
    LayoutUpTo(inode, blocks, DataBlocks(inode.size))
  }

  /** A file whose blocks are all on the device and pairwise different. */
  ghost predicate WellFormed(inode: DiskInode, blocks: seq<Block>) {
    inode.Shaped() && DataBlocks(inode.size) <= MAX_DATA_BLOCKS
    && Distinct(Layout(inode, blocks)) && InDevice(Layout(inode, blocks), blocks)
  }
}
