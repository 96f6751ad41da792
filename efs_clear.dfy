/**
 * DiskInode::clear_size: the file is emptied and every block it occupied,
 * data and index alike, is handed back in the order it was allocated.
 */
module EfsClear {
  import opened Words
  import opened EfsBlock
  import opened EfsInode

  /** The first `k` entries of index block `b`. */
  function Entries(b: Block, k: nat): (r: seq<u32>)
    requires k <= ENTRIES
    ensures |r| == k
  {
    if k == 0 then [] else Entries(b, k - 1) + [Entry(b, k - 1)]
  }

  lemma EntriesSnoc(b: Block, k: nat)
    requires k < ENTRIES
    ensures Entries(b, k + 1) == Entries(b, k) + [Entry(b, k)]
  {
  }

  lemma SnocAssoc(q: seq<u32>, e: seq<u32>, x: seq<u32>)
    ensures q + e + x == q + (e + x)
  {
  }

  /**
   * The first `a` singly-indirect blocks named by the doubly-indirect
   * block, each followed by all 128 of its entries.
   */
  function DoubleGroups(inode: DiskInode, blocks: seq<Block>, a: nat): (r: seq<u32>)
    requires a <= INODE_INDIRECT1_COUNT

  {
    if a == 0 then []
    else
      var l1 := L1Id(inode, blocks, a - 1);
      DoubleGroups(inode, blocks, a - 1) + ([l1] + Entries(Read(blocks, l1), 128))
  }

  /** The blocks before the doubly-indirect groups: direct ids, the singly-indirect block and its entries, the doubly-indirect block. */
  function Head(inode: DiskInode, blocks: seq<Block>): seq<u32> {
    inode.direct + [inode.indirect1] + Entries(Read(blocks, inode.indirect1), 128) + [inode.indirect2]
  }

  /**
   * The blocks of a file of `d` data blocks in the order clear_size lists
   * them: the used direct ids; then the singly-indirect block and the used
   * entries; then the doubly-indirect block, each full singly-indirect
   * block with all its entries, and the last, partly used one with the
   * used entries.
   */
  function ClearOrder(inode: DiskInode, blocks: seq<Block>, d: nat): seq<u32>
    requires inode.Shaped() && d <= MAX_DATA_BLOCKS
  {
    if d <= DIRECT_BOUND then inode.direct[..d]
    else if d <= INDIRECT1_BOUND then inode.direct + [inode.indirect1] + Entries(Read(blocks, inode.indirect1), d - DIRECT_BOUND)
    else
      var a1 := (d - INDIRECT1_BOUND) / 128;
      var b1 := (d - INDIRECT1_BOUND) % 128;
      Head(inode, blocks) + DoubleGroups(inode, blocks, a1)
        + (if b1 > 0 then [L1Id(inode, blocks, a1)] + Entries(Read(blocks, L1Id(inode, blocks, a1)), b1) else [])
  }

  lemma ClearStepDirect(inode: DiskInode, blocks: seq<Block>, k: nat, d: nat)
    requires inode.Shaped() && d == k + 1 && d <= DIRECT_BOUND
    ensures ClearOrder(inode, blocks, d)
      == ClearOrder(inode, blocks, k) + Boundary(inode, blocks, k) + [BlockId(inode, blocks, k)]
  {
    assert inode.direct[..d] == inode.direct[..k] + [inode.direct[k]];
  }

  lemma ClearStepIndirect1(inode: DiskInode, blocks: seq<Block>, k: nat, d: nat)
    requires inode.Shaped() && d == k + 1 && DIRECT_BOUND <= k < INDIRECT1_BOUND
    ensures ClearOrder(inode, blocks, d)
      == ClearOrder(inode, blocks, k) + Boundary(inode, blocks, k) + [BlockId(inode, blocks, k)]
  {
    var b := Read(blocks, inode.indirect1);
    var e := k - DIRECT_BOUND;
    EntriesSnoc(b, e);
    if k == DIRECT_BOUND {
      assert inode.direct[..DIRECT_BOUND] == inode.direct;
      assert Entries(b, 0) == [];
    } else {
      SnocAssoc(inode.direct + [inode.indirect1], Entries(b, e), [Entry(b, e)]);
    }
  }

  /** The first data block behind the doubly-indirect block. */
  lemma ClearStepFirstDouble(inode: DiskInode, blocks: seq<Block>)
    requires inode.Shaped()
    ensures ClearOrder(inode, blocks, INDIRECT1_BOUND + 1)
      == ClearOrder(inode, blocks, INDIRECT1_BOUND) + Boundary(inode, blocks, INDIRECT1_BOUND) + [BlockId(inode, blocks, INDIRECT1_BOUND)]
  {
    var l1 := L1Id(inode, blocks, 0);
    var x := Entry(Read(blocks, l1), 0);
    assert Entries(Read(blocks, l1), 1) == [x];
    assert DoubleGroups(inode, blocks, 0) == [];
    assert Head(inode, blocks) == ClearOrder(inode, blocks, INDIRECT1_BOUND) + [inode.indirect2];
    assert ClearOrder(inode, blocks, INDIRECT1_BOUND + 1) == Head(inode, blocks) + [] + ([l1] + [x]);
  }

  /** Data block k opens group `a` (entry 0 of a new singly-indirect block). */
  lemma ClearStepOpen(inode: DiskInode, blocks: seq<Block>, k: nat, d: nat, a: nat)
    requires inode.Shaped() && d == k + 1 && INDIRECT1_BOUND < k && d <= MAX_DATA_BLOCKS
    requires k - INDIRECT1_BOUND == 128 * a
    ensures ClearOrder(inode, blocks, d)
      == ClearOrder(inode, blocks, k) + Boundary(inode, blocks, k) + [BlockId(inode, blocks, k)]
  {
    assert (k - INDIRECT1_BOUND) / 128 == a && (k - INDIRECT1_BOUND) % 128 == 0;
    assert (d - INDIRECT1_BOUND) / 128 == a && (d - INDIRECT1_BOUND) % 128 == 1;
    var h := Head(inode, blocks);
    var l1 := L1Id(inode, blocks, a);
    var blk := Read(blocks, l1);
    var g := DoubleGroups(inode, blocks, a);
    assert Entries(blk, 1) == [Entry(blk, 0)];
    assert ClearOrder(inode, blocks, k) == h + g + [];
    assert ClearOrder(inode, blocks, d) == h + g + ([l1] + [Entry(blk, 0)]);
  }

  /** Data block k is entry b (0 < b < 127) of group `a`. */
  lemma ClearStepInside(inode: DiskInode, blocks: seq<Block>, k: nat, d: nat, a: nat, b: nat)
    requires inode.Shaped() && d == k + 1 && INDIRECT1_BOUND < k && d <= MAX_DATA_BLOCKS
    requires k - INDIRECT1_BOUND == 128 * a + b && 0 < b < 127
    ensures ClearOrder(inode, blocks, d)
      == ClearOrder(inode, blocks, k) + Boundary(inode, blocks, k) + [BlockId(inode, blocks, k)]
  {
    assert (k - INDIRECT1_BOUND) / 128 == a && (k - INDIRECT1_BOUND) % 128 == b;
    assert (d - INDIRECT1_BOUND) / 128 == a && (d - INDIRECT1_BOUND) % 128 == b + 1;
    var h := Head(inode, blocks);
    var l1 := L1Id(inode, blocks, a);
    var blk := Read(blocks, l1);
    var g := DoubleGroups(inode, blocks, a);
    EntriesSnoc(blk, b);
    SnocAssoc([l1], Entries(blk, b), [Entry(blk, b)]);
    SnocAssoc(h + g, [l1] + Entries(blk, b), [Entry(blk, b)]);
  }

  /** Data block k is the last entry of group `a`, which it completes. */
  lemma ClearStepClose(inode: DiskInode, blocks: seq<Block>, k: nat, d: nat, a: nat)
    requires inode.Shaped() && d == k + 1 && INDIRECT1_BOUND < k && d <= MAX_DATA_BLOCKS
    requires k - INDIRECT1_BOUND == 128 * a + 127
    ensures ClearOrder(inode, blocks, d)
      == ClearOrder(inode, blocks, k) + Boundary(inode, blocks, k) + [BlockId(inode, blocks, k)]
  {
    assert (k - INDIRECT1_BOUND) / 128 == a && (k - INDIRECT1_BOUND) % 128 == 127;
    assert (d - INDIRECT1_BOUND) / 128 == a + 1 && (d - INDIRECT1_BOUND) % 128 == 0;
    var h := Head(inode, blocks);
    var l1 := L1Id(inode, blocks, a);
    var blk := Read(blocks, l1);
    var g := DoubleGroups(inode, blocks, a);
    EntriesSnoc(blk, 127);
    SnocAssoc([l1], Entries(blk, 127), [Entry(blk, 127)]);
    SnocAssoc(h + g, [l1] + Entries(blk, 127), [Entry(blk, 127)]);
    SnocAssoc(h, g, [l1] + Entries(blk, 128));
  }

  lemma LayoutNext(inode: DiskInode, blocks: seq<Block>, k: nat, d: nat)
    requires inode.Shaped() && d == k + 1 && d <= MAX_DATA_BLOCKS
    ensures LayoutUpTo(inode, blocks, d) == LayoutUpTo(inode, blocks, k) + Boundary(inode, blocks, k) + [BlockId(inode, blocks, k)]
  {
    LayoutStep(inode, blocks, d);
  }

  /** One more data block extends clear_size's listing the way it extends the layout. */
  lemma ClearStep(inode: DiskInode, blocks: seq<Block>, k: nat, d: nat)
    requires inode.Shaped() && d == k + 1 && d <= MAX_DATA_BLOCKS
    requires ClearOrder(inode, blocks, k) == LayoutUpTo(inode, blocks, k)
    ensures ClearOrder(inode, blocks, d) == LayoutUpTo(inode, blocks, d)
  {
    LayoutNext(inode, blocks, k, d);
    if d <= DIRECT_BOUND {
      ClearStepDirect(inode, blocks, k, d);
    } else if d <= INDIRECT1_BOUND {
      ClearStepIndirect1(inode, blocks, k, d);
    } else if k == INDIRECT1_BOUND {
      ClearStepFirstDouble(inode, blocks);
    } else {
      var a, b := Split2(k);
      if b == 0 {
        ClearStepOpen(inode, blocks, k, d, a);
      } else if b < 127 {
        ClearStepInside(inode, blocks, k, d, a, b);
      } else {
        ClearStepClose(inode, blocks, k, d, a);
      }
    }
  }

  /** clear_size's listing order is exactly the allocation order of the layout. */
  lemma {:induction false} ClearOrderIsLayout(inode: DiskInode, blocks: seq<Block>, d: nat)
    requires inode.Shaped() && d <= MAX_DATA_BLOCKS
    ensures ClearOrder(inode, blocks, d) == LayoutUpTo(inode, blocks, d)
  {
    if d > 0 {
      var k := d - 1;
      ClearOrderIsLayout(inode, blocks, k);
      ClearStep(inode, blocks, k, d);
    }
  }

  /** The listing of a file that reaches into the doubly-indirect range, with its split into groups named. */
  lemma ClearOrderDouble(inode: DiskInode, blocks: seq<Block>, d: nat, a1: nat, b1: nat)
    requires inode.Shaped() && INDIRECT1_BOUND < d <= MAX_DATA_BLOCKS
    requires d - INDIRECT1_BOUND == 128 * a1 + b1 && b1 < 128
    ensures a1 <= INODE_INDIRECT1_COUNT && (b1 > 0 ==> a1 < INODE_INDIRECT1_COUNT)
    ensures ClearOrder(inode, blocks, d) == Head(inode, blocks) + DoubleGroups(inode, blocks, a1)
      + (if b1 > 0 then [L1Id(inode, blocks, a1)] + Entries(Read(blocks, L1Id(inode, blocks, a1)), b1) else [])
  {
    assert (d - INDIRECT1_BOUND) / 128 == a1 && (d - INDIRECT1_BOUND) % 128 == b1;
  }

  /** Appends the first `n` entries of index block `b` to `v`, one by one. */
  method PushEntries(v: seq<u32>, b: Block, n: nat) returns (v2: seq<u32>)
    requires n <= ENTRIES
    ensures v2 == v + Entries(b, n)
  {
    v2 := v;
    var current := 0;
    while current < n
      invariant current <= n
      invariant v2 == v + Entries(b, current)
    {
      EntriesSnoc(b, current);
      SnocAssoc(v, Entries(b, current), [Entry(b, current)]);
      v2 := v2 + [Entry(b, current)];
      current := current + 1;
    }
  }

  /** One more full group appended after the first `a`. */
  lemma GroupsSnoc(inode: DiskInode, blocks: seq<Block>, a: nat, l1: u32)
    requires a < INODE_INDIRECT1_COUNT && l1 == L1Id(inode, blocks, a)
    ensures DoubleGroups(inode, blocks, a) + [l1] + Entries(Read(blocks, l1), 128) == DoubleGroups(inode, blocks, a + 1)
  {
    SnocAssoc(DoubleGroups(inode, blocks, a), [l1], Entries(Read(blocks, l1), 128));
  }

  /** The layout of a file that uses direct blocks only. */
  lemma ListedDirect(inode: DiskInode, blocks: seq<Block>, d: nat)
    requires inode.Shaped() && d == DataBlocks(inode.size) && d <= DIRECT_BOUND
    ensures Layout(inode, blocks) == inode.direct[..d]
  {
    ClearOrderIsLayout(inode, blocks, d);
  }

  /** The layout of a file that reaches into the singly-indirect range but no further. */
  lemma ListedIndirect1(inode: DiskInode, blocks: seq<Block>, d: nat)
    requires inode.Shaped() && d == DataBlocks(inode.size) && DIRECT_BOUND < d <= INDIRECT1_BOUND
    ensures Layout(inode, blocks) == inode.direct + [inode.indirect1] + Entries(Read(blocks, inode.indirect1), d - DIRECT_BOUND)
  {
    ClearOrderIsLayout(inode, blocks, d);
  }

  /** The layout of a file that reaches into the doubly-indirect range. */
  lemma ListedDouble(inode: DiskInode, blocks: seq<Block>, d: nat, a1: nat, b1: nat)
    requires inode.Shaped() && d == DataBlocks(inode.size) && INDIRECT1_BOUND < d <= MAX_DATA_BLOCKS
    requires d - INDIRECT1_BOUND == 128 * a1 + b1 && b1 < 128
    ensures a1 <= INODE_INDIRECT1_COUNT && (b1 > 0 ==> a1 < INODE_INDIRECT1_COUNT)
    ensures Layout(inode, blocks) == Head(inode, blocks) + DoubleGroups(inode, blocks, a1)
      + (if b1 > 0 then [L1Id(inode, blocks, a1)] + Entries(Read(blocks, L1Id(inode, blocks, a1)), b1) else [])
  {
    ClearOrderIsLayout(inode, blocks, d);
    ClearOrderDouble(inode, blocks, d, a1, b1);
  }

  /** The direct-slot loop: lists the first `n` direct ids and zeroes their slots. */
  method ReleaseDirect(inode: DiskInode, n: nat) returns (r: DiskInode, v: seq<u32>)
    requires inode.Shaped() && n <= DIRECT_BOUND
    ensures v == inode.direct[..n]
    ensures r == inode.(direct := r.direct) && r.Shaped()
    ensures forall i :: 0 <= i < INODE_DIRECT_COUNT ==> r.direct[i] == if i < n then 0 else inode.direct[i]
  {
    v := [];
    r := inode;
    var current := 0;
    while current < n
      invariant current <= n
      invariant v == inode.direct[..current]
      invariant r == inode.(direct := r.direct) && |r.direct| == INODE_DIRECT_COUNT
      invariant forall i :: 0 <= i < INODE_DIRECT_COUNT ==> r.direct[i] == if i < current then 0 else inode.direct[i]
    {
      assert inode.direct[..current + 1] == inode.direct[..current] + [inode.direct[current]];
      v := v + [r.direct[current]];
      r := r.(direct := r.direct[current := 0]);
      current := current + 1;
    }
  }

  /** The loop over the first `a1` entries of the doubly-indirect block: each block with all its entries. */
  method PushGroups(inode: DiskInode, blocks: seq<Block>, a1: nat) returns (v: seq<u32>)
    requires a1 <= INODE_INDIRECT1_COUNT
    ensures v == DoubleGroups(inode, blocks, a1)
  {
    var indirect2 := Read(blocks, inode.indirect2);
    v := [];
    var a := 0;
    while a < a1
      invariant a <= a1
      invariant v == DoubleGroups(inode, blocks, a)
    {
      var l1 := Entry(indirect2, a);
      v := PushEntries(v + [l1], Read(blocks, l1), ENTRIES);
      GroupsSnoc(inode, blocks, a, l1);
      a := a + 1;
    }
  }

  /**
   * The doubly-indirect part: each of the first `a1` singly-indirect blocks
   * with all its entries, then, when `b1 > 0`, block `a1` with its first
   * `b1` entries.
   */
  method PushDouble(v: seq<u32>, inode: DiskInode, blocks: seq<Block>, a1: nat, b1: nat) returns (v2: seq<u32>)
    requires a1 <= INODE_INDIRECT1_COUNT && b1 < 128 && (b1 > 0 ==> a1 < INODE_INDIRECT1_COUNT)
    ensures v2 == v + DoubleGroups(inode, blocks, a1)
      + (if b1 > 0 then [L1Id(inode, blocks, a1)] + Entries(Read(blocks, L1Id(inode, blocks, a1)), b1) else [])
  {
    var groups := PushGroups(inode, blocks, a1);
    v2 := v + groups;
    if b1 > 0 {
      var l1 := Entry(Read(blocks, inode.indirect2), a1);
      SnocAssoc(v2, [l1], Entries(Read(blocks, l1), b1));
      v2 := PushEntries(v2 + [l1], Read(blocks, l1), b1);
    } else {
      assert v2 + [] == v2;
    }
  }

  /**
   * DiskInode::clear_size on the inode value `inode` over device contents
   * `blocks` (which it only reads): returns the emptied inode and the ids
   * of every block the file occupied.
   */
  method ClearSize(inode: DiskInode, blocks: seq<Block>) returns (r: DiskInode, v: seq<u32>)
    requires inode.Shaped() && DataBlocks(inode.size) <= MAX_DATA_BLOCKS
    ensures v == Layout(inode, blocks) && |v| == TotalBlocks(inode.size)
    ensures r.Shaped() && r.size == 0 && r.kind == inode.kind
    ensures forall i :: 0 <= i < INODE_DIRECT_COUNT ==>
      r.direct[i] == if i < DataBlocks(inode.size) then 0 else inode.direct[i]
    ensures r.indirect1 == if DataBlocks(inode.size) > DIRECT_BOUND then 0 else inode.indirect1
    ensures r.indirect2 == if DataBlocks(inode.size) > INDIRECT1_BOUND then 0 else inode.indirect2
  {
    ghost var d := DataBlocks(inode.size);
    TotalClosedForm(d);
    var dataBlocks := DataBlocks(inode.size);
    r, v := ReleaseDirect(inode.(size := 0), Min(dataBlocks, DIRECT_BOUND));
    assert v == inode.direct[..Min(d, DIRECT_BOUND)];
    if dataBlocks > DIRECT_BOUND {
      assert inode.direct[..DIRECT_BOUND] == inode.direct;
      v := v + [r.indirect1];
      dataBlocks := dataBlocks - DIRECT_BOUND;
    } else {
      ListedDirect(inode, blocks, d);
      return;
    }
    assert v == inode.direct + [inode.indirect1];
    v := PushEntries(v, Read(blocks, r.indirect1), Min(dataBlocks, INODE_INDIRECT1_COUNT));
    r := r.(indirect1 := 0);
    if dataBlocks > INODE_INDIRECT1_COUNT {
      v := v + [r.indirect2];
      dataBlocks := dataBlocks - INODE_INDIRECT1_COUNT;
    } else {
      ListedIndirect1(inode, blocks, d);
      return;
    }
    assert v == Head(inode, blocks);
    var a1 := dataBlocks / INODE_INDIRECT1_COUNT;
    var b1 := dataBlocks % INODE_INDIRECT1_COUNT;
    ListedDouble(inode, blocks, d, a1, b1);
    v := PushDouble(v, inode, blocks, a1, b1);
    r := r.(indirect2 := 0);
  }
}
