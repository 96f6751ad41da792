/**
 * DiskInode::increase_size: the file grows block by block, and each step
 * appends to its layout while leaving the rest of the device as it was.
 */
module EfsGrow {
  import opened Words
  import opened EfsBlock
  import opened EfsInode

  /** Positions in the layout grow with (data block, index block brought in by it). */
  lemma PosOrder(j: nat, k: nat, j2: nat, k2: nat)
    requires k <= BoundaryCount(j) && k2 <= BoundaryCount(j2)
    requires j < j2 || (j == j2 && k < k2)
    ensures Total(j) + k < Total(j2) + k2
  {
    if j < j2 {
      assert Total(j + 1) == Total(j) + 1 + BoundaryCount(j);
      TotalMonotone(j + 1, j2);
    }
  }

  /** Data block `i` of a file of `n` data blocks sits inside its layout. */
  lemma DataPosBelow(i: nat, n: nat)
    requires i < n
    ensures DataPos(i) < Total(n)
  {
    TotalMonotone(i + 1, n);
    assert Total(i + 1) == DataPos(i) + 1;
  }

  /**
   * The state of increase_size after placing data blocks up to `n`: the
   * layout so far, followed by the index block just allocated (`pending`),
   * is the first `m` blocks of `full` (the old layout, then the new
   * blocks); the device differs from `before` only at those blocks, and
   * every data block placed holds what it held.
   */
  ghost predicate Grown(inode: DiskInode, blocks: seq<Block>, before: seq<Block>, n: nat, pending: seq<u32>,
                        full: seq<u32>, m: nat)
  {
    inode.Shaped() && n <= MAX_DATA_BLOCKS && m <= |full|
    && Distinct(full) && InDevice(full, before)
    && LayoutUpTo(inode, blocks, n) + pending == full[..m]
    && |blocks| == |before|
    && (forall id :: 0 <= id < |blocks| && id !in full[..m] ==> blocks[id] == before[id])
    && (forall i :: 0 <= i < n ==> DataPos(i) < m && Read(blocks, full[DataPos(i)]) == Read(before, full[DataPos(i)]))
  }

  /** A block not yet placed still holds what it held before. */
  lemma NotYetPlaced(blocks: seq<Block>, before: seq<Block>, full: seq<u32>, m: nat, q: nat)
    requires Distinct(full) && InDevice(full, before) && |blocks| == |before| && m <= q < |full|
    requires forall id :: 0 <= id < |blocks| && id !in full[..m] ==> blocks[id] == before[id]
    ensures full[q] !in full[..m] && Read(blocks, full[q]) == Read(before, full[q])
  {
  }

  /** Placing one more block keeps the frame: what was outside the placed blocks still is, or is the new one. */
  lemma PlacedGrows(full: seq<u32>, m: nat, m2: nat)
    requires m <= m2 <= |full|
    ensures forall id :: id !in full[..m2] ==> id !in full[..m]
  {
    assert full[..m] == full[..m2][..m];
  }

  /**
   * Writing into placed block full[p] keeps every block outside the placed
   * ones, and every data block placed so far, as it was.
   */
  lemma WriteKeeps(blocks: seq<Block>, after: seq<Block>, before: seq<Block>, full: seq<u32>, m: nat, n: nat, p: nat)
    requires Distinct(full) && p < m <= |full| && |blocks| == |before| && |after| == |blocks|
    requires forall other :: other != full[p] ==> Read(after, other) == Read(blocks, other)
    requires forall id :: 0 <= id < |blocks| && id !in full[..m] ==> blocks[id] == before[id]
    requires forall i :: 0 <= i < n ==> DataPos(i) < m && DataPos(i) != p
    requires forall i :: 0 <= i < n ==> Read(blocks, full[DataPos(i)]) == Read(before, full[DataPos(i)])
    ensures forall id :: 0 <= id < |after| && id !in full[..m] ==> after[id] == before[id]
    ensures forall i :: 0 <= i < n ==> Read(after, full[DataPos(i)]) == Read(before, full[DataPos(i)])
  {
    assert full[..m][p] == full[p];
    forall id | 0 <= id < |after| && id !in full[..m]
      ensures after[id] == before[id]
    {
      assert Read(after, id) == Read(blocks, id);
    }
  }

  /** No data block placed below `n` sits at index position Total(j) + kk. */
  lemma DataNotIndex(n: nat, j: nat, kk: nat, m: nat)
    requires kk < BoundaryCount(j) && Total(n) <= m
    ensures forall i :: 0 <= i < n ==> DataPos(i) < m && DataPos(i) != Total(j) + kk
  {
    forall i | 0 <= i < n
      ensures DataPos(i) < m && DataPos(i) != Total(j) + kk
    {
      DataPosBelow(i, n);
      if i < j {
        PosOrder(i, BoundaryCount(i), j, kk);
      } else if j < i {
        PosOrder(j, kk, i, BoundaryCount(i));
      }
    }
  }

  /** One more data block placed, as the last of the first m2 blocks, with everything else kept. */
  lemma GrowStep(inode: DiskInode, after: seq<Block>, before: seq<Block>, n: nat, full: seq<u32>, m: nat, m2: nat)
    requires inode.Shaped() && n < MAX_DATA_BLOCKS && m < m2 <= |full|
    requires Distinct(full) && InDevice(full, before) && |after| == |before|
    requires LayoutUpTo(inode, after, n + 1) == full[..m2]
    requires forall id :: 0 <= id < |after| && id !in full[..m] ==> after[id] == before[id]
    requires forall i :: 0 <= i < n ==> DataPos(i) < m && Read(after, full[DataPos(i)]) == Read(before, full[DataPos(i)])
    requires Read(after, full[m2 - 1]) == Read(before, full[m2 - 1])
    ensures Grown(inode, after, before, n + 1, [], full, m2)
  {
    PlacedGrows(full, m, m2);
    DataPosBelow(n, n + 1);
  }

  /** The singly-indirect block is placed at position Total(28) once data block 28 is reached. */
  lemma Indirect1Placed(inode: DiskInode, blocks: seq<Block>, before: seq<Block>, n: nat, full: seq<u32>, m: nat)
    requires DIRECT_BOUND <= n
    requires Grown(inode, blocks, before, n, if n == DIRECT_BOUND then [inode.indirect1] else [], full, m)
    ensures Total(DIRECT_BOUND) < m && full[Total(DIRECT_BOUND)] == inode.indirect1 && inode.indirect1 < |blocks|
  {
    var p := Total(DIRECT_BOUND);
    if n == DIRECT_BOUND {
      assert full[..m][p] == inode.indirect1;
    } else {
      Indirect1At(inode, blocks, n);
      assert full[..m][p] == inode.indirect1;
    }
  }

  /**
   * One data block placed by writing one entry into the index block at
   * position Total(j) + kk: the step keeps everything increase_size keeps.
   */
  lemma GrowByWrite(inode: DiskInode, blocks: seq<Block>, after: seq<Block>, before: seq<Block>, n: nat, pending: seq<u32>,
                    full: seq<u32>, m: nat, p: nat, j: nat, kk: nat)
    requires Grown(inode, blocks, before, n, pending, full, m) && n < MAX_DATA_BLOCKS && m < |full|
    requires kk < BoundaryCount(j) && p == Total(j) + kk && p < m && |after| == |blocks|
    requires forall other :: other != full[p] ==> Read(after, other) == Read(blocks, other)
    requires LayoutUpTo(inode, after, n + 1) == full[..m + 1]
    ensures Grown(inode, after, before, n + 1, [], full, m + 1)
  {
    DataNotIndex(n, j, kk, m);
    WriteKeeps(blocks, after, before, full, m, n, p);
    NotYetPlaced(after, before, full, m, m);
    GrowStep(inode, after, before, n, full, m, m + 1);
  }

  /** increase_size, direct range: slot n takes the next new block. */
  lemma GrowDirect(inode: DiskInode, blocks: seq<Block>, before: seq<Block>, n: nat, full: seq<u32>, m: nat)
    requires Grown(inode, blocks, before, n, [], full, m) && n < DIRECT_BOUND && m < |full|
    ensures Grown(inode.(direct := inode.direct[n := full[m]]), blocks, before, n + 1, [], full, m + 1)
  {
    var next := inode.(direct := inode.direct[n := full[m]]);
    DirectStep(inode, blocks, n, full[m]);
    PrefixSnoc(full, m);
    NotYetPlaced(blocks, before, full, m, m);
    PlacedGrows(full, m, m + 1);
  }

  /** increase_size: the singly-indirect block is allocated once the 28 direct slots are full. */
  lemma GrowIndirect1Alloc(inode: DiskInode, blocks: seq<Block>, before: seq<Block>, full: seq<u32>, m: nat)
    requires Grown(inode, blocks, before, DIRECT_BOUND, [], full, m) && m < |full|
    ensures Grown(inode.(indirect1 := full[m]), blocks, before, DIRECT_BOUND, [full[m]], full, m + 1)
  {
    var next := inode.(indirect1 := full[m]);
    LayoutFrame(inode, blocks, next, blocks, DIRECT_BOUND);
    PrefixSnoc(full, m);
    PlacedGrows(full, m, m + 1);
  }

  lemma Indirect1Grows(inode: DiskInode, blocks: seq<Block>, n: nat, full: seq<u32>, m: nat)
    requires inode.Shaped() && DIRECT_BOUND <= n < INDIRECT1_BOUND && m < |full| && inode.indirect1 < |blocks|
    requires LayoutUpTo(inode, blocks, n) + (if n == DIRECT_BOUND then [inode.indirect1] else []) == full[..m]
    ensures LayoutUpTo(inode, WriteEntry(blocks, inode.indirect1, n - DIRECT_BOUND, full[m]), n + 1) == full[..m + 1]
  {
    Indirect1Step(inode, blocks, n, full[m]);
    PrefixSnoc(full, m);
  }

  /** increase_size, singly-indirect range: entry n-28 of the singly-indirect block takes the next new block. */
  lemma GrowIndirect1(inode: DiskInode, blocks: seq<Block>, before: seq<Block>, n: nat, full: seq<u32>, m: nat)
    requires DIRECT_BOUND <= n < INDIRECT1_BOUND && m < |full|
    requires Grown(inode, blocks, before, n, if n == DIRECT_BOUND then [inode.indirect1] else [], full, m)
    ensures inode.indirect1 < |blocks|
    ensures Grown(inode, WriteEntry(blocks, inode.indirect1, n - DIRECT_BOUND, full[m]), before, n + 1, [], full, m + 1)
  {
    var p := Total(DIRECT_BOUND);
    Indirect1Placed(inode, blocks, before, n, full, m);
    var after := WriteEntry(blocks, inode.indirect1, n - DIRECT_BOUND, full[m]);
    Indirect1Grows(inode, blocks, n, full, m);
    GrowByWrite(inode, blocks, after, before, n, if n == DIRECT_BOUND then [inode.indirect1] else [], full, m, p, DIRECT_BOUND, 0);
  }

  /** A position of the layout so far holds the same block in `full`. */
  lemma PlacedAt(inode: DiskInode, blocks: seq<Block>, n: nat, pending: seq<u32>, full: seq<u32>, m: nat, p: nat)
    requires inode.Shaped() && n <= MAX_DATA_BLOCKS && m <= |full|
    requires LayoutUpTo(inode, blocks, n) + pending == full[..m] && p < Total(n)
    ensures p < m && full[p] == LayoutUpTo(inode, blocks, n)[p]
  {
    assert full[..m][p] == full[p];
  }

  /** The doubly-indirect block is placed at position Total(156) once data block 156 is reached. */
  lemma Indirect2Placed(inode: DiskInode, blocks: seq<Block>, before: seq<Block>, n: nat, full: seq<u32>, m: nat)
    requires INDIRECT1_BOUND <= n
    requires Grown(inode, blocks, before, n, if n == INDIRECT1_BOUND then [inode.indirect2] else [], full, m)
    ensures Total(INDIRECT1_BOUND) < m && full[Total(INDIRECT1_BOUND)] == inode.indirect2 && inode.indirect2 < |blocks|
  {
    var p := Total(INDIRECT1_BOUND);
    if n == INDIRECT1_BOUND {
      assert full[..m][p] == inode.indirect2;
    } else {
      Indirect2At(inode, blocks, n);
      PlacedAt(inode, blocks, n, [], full, m, p);
    }
  }

  /** Past data block 28 the singly-indirect block is placed at position Total(28). */
  lemma Indirect1PlacedPast(inode: DiskInode, blocks: seq<Block>, n: nat, pending: seq<u32>, full: seq<u32>, m: nat)
    requires inode.Shaped() && DIRECT_BOUND < n <= MAX_DATA_BLOCKS && m <= |full|
    requires LayoutUpTo(inode, blocks, n) + pending == full[..m]
    ensures Total(DIRECT_BOUND) < m && full[Total(DIRECT_BOUND)] == inode.indirect1
  {
    Indirect1At(inode, blocks, n);
    PlacedAt(inode, blocks, n, pending, full, m, Total(DIRECT_BOUND));
  }

  /** The second-level block of entry `a`, below data block n, is placed at L1Pos(a). */
  lemma L1Placed(inode: DiskInode, blocks: seq<Block>, n: nat, pending: seq<u32>, full: seq<u32>, m: nat, a: nat)
    requires inode.Shaped() && a < INODE_INDIRECT1_COUNT && INDIRECT1_BOUND + 128 * a < n <= MAX_DATA_BLOCKS && m <= |full|
    requires LayoutUpTo(inode, blocks, n) + pending == full[..m]
    ensures L1Pos(a) < m && full[L1Pos(a)] == L1Id(inode, blocks, a)
  {
    L1At(inode, blocks, n, a);
    PlacedAt(inode, blocks, n, pending, full, m, L1Pos(a));
  }

  /** increase_size: the doubly-indirect block is allocated once the singly-indirect range is full. */
  lemma GrowIndirect2Alloc(inode: DiskInode, blocks: seq<Block>, before: seq<Block>, full: seq<u32>, m: nat)
    requires Grown(inode, blocks, before, INDIRECT1_BOUND, [], full, m) && m < |full|
    ensures Grown(inode.(indirect2 := full[m]), blocks, before, INDIRECT1_BOUND, [full[m]], full, m + 1)
  {
    var next := inode.(indirect2 := full[m]);
    LayoutFrame(inode, blocks, next, blocks, INDIRECT1_BOUND);
    PrefixSnoc(full, m);
    PlacedGrows(full, m, m + 1);
  }

  /** The layout after a fresh second-level block `full[m]` and its first data block `full[m+1]`. */
  lemma DoubleNewGrows(inode: DiskInode, blocks: seq<Block>, n: nat, a0: nat, full: seq<u32>, m: nat)
    requires inode.Shaped() && a0 < INODE_INDIRECT1_COUNT && n == INDIRECT1_BOUND + 128 * a0 && m + 1 < |full|
    requires inode.indirect2 < |blocks| && full[m] < |blocks|
    requires full[m] != inode.indirect2 && inode.indirect1 != inode.indirect2 && inode.indirect1 != full[m]
    requires forall a :: 0 <= a < a0 ==> L1Id(inode, blocks, a) != full[m] && L1Id(inode, blocks, a) != inode.indirect2
    requires LayoutUpTo(inode, blocks, n) + (if n == INDIRECT1_BOUND then [inode.indirect2] else []) == full[..m]
    ensures LayoutUpTo(inode, WriteEntry(WriteEntry(blocks, inode.indirect2, a0, full[m]), full[m], 0, full[m + 1]), n + 1)
      == full[..m + 2]
  {
    var layout := LayoutUpTo(inode, blocks, n);
    var pending := if n == INDIRECT1_BOUND then [inode.indirect2] else [];
    var after := WriteEntry(WriteEntry(blocks, inode.indirect2, a0, full[m]), full[m], 0, full[m + 1]);
    Indirect2NewStep(inode, blocks, n, a0, full[m], full[m + 1]);
    NewBoundary(inode.indirect2, n, a0, full[m]);
    SnocAssoc(layout, pending, full[m], full[m + 1]);
    PrefixSnoc2(full, m);
    calc {
      LayoutUpTo(inode, after, n + 1);
      layout + DoubleBoundary(inode.indirect2, a0, 0, full[m]) + [full[m + 1]];
      layout + (pending + [full[m]]) + [full[m + 1]];
      layout + pending + [full[m]] + [full[m + 1]];
      full[..m + 2];
    }
  }

  lemma PrefixSnoc(full: seq<u32>, m: nat)
    requires m < |full|
    ensures full[..m + 1] == full[..m] + [full[m]]
  {
  }

  /** The index blocks entry 0 of second-level block a0 brings in: the doubly-indirect block first, if a0 == 0. */
  lemma NewBoundary(indirect2: u32, n: nat, a0: nat, y: u32)
    requires n == INDIRECT1_BOUND + 128 * a0
    ensures DoubleBoundary(indirect2, a0, 0, y) == (if n == INDIRECT1_BOUND then [indirect2] else []) + [y]
  {
  }

  lemma SnocAssoc(a: seq<u32>, b: seq<u32>, y: u32, x: u32)
    ensures a + (b + [y]) + [x] == a + b + [y] + [x]
  {
  }

  lemma PrefixSnoc2(full: seq<u32>, m: nat)
    requires m + 1 < |full|
    ensures full[..m + 2] == full[..m] + [full[m]] + [full[m + 1]]
  {
  }

  /**
   * increase_size, doubly-indirect range, first entry of a second-level
   * block: the next new block becomes entry a0 of the doubly-indirect block,
   * the one after it entry 0 of that new block.
   */
  lemma GrowDoubleNew(inode: DiskInode, blocks: seq<Block>, before: seq<Block>, n: nat, a0: nat, pending: seq<u32>,
                      full: seq<u32>, m: nat)
    requires a0 < INODE_INDIRECT1_COUNT && n == INDIRECT1_BOUND + 128 * a0 && m + 1 < |full|
    requires pending == (if n == INDIRECT1_BOUND then [inode.indirect2] else [])
    requires Grown(inode, blocks, before, n, pending, full, m)
    ensures inode.indirect2 < |blocks| && full[m] < |blocks|
    ensures Grown(inode, WriteEntry(WriteEntry(blocks, inode.indirect2, a0, full[m]), full[m], 0, full[m + 1]),
                  before, n + 1, [], full, m + 2)
  {
    var p2 := Total(INDIRECT1_BOUND);
    TotalAtBounds();
    Indirect2Placed(inode, blocks, before, n, full, m);
    Indirect1PlacedPast(inode, blocks, n, pending, full, m);
    forall a | 0 <= a < a0
      ensures L1Id(inode, blocks, a) != full[m] && L1Id(inode, blocks, a) != inode.indirect2
    {
      L1Placed(inode, blocks, n, pending, full, m, a);
      var j, kk := L1PosForm(a);
      if a > 0 {
        PosOrder(INDIRECT1_BOUND, 0, j, kk);
      }
    }
    DoubleNewGrows(inode, blocks, n, a0, full, m);
    var mid := WriteEntry(blocks, inode.indirect2, a0, full[m]);
    var after := WriteEntry(mid, full[m], 0, full[m + 1]);
    DataNotIndex(n, INDIRECT1_BOUND, 0, m);
    WriteKeeps(blocks, mid, before, full, m, n, p2);
    PlacedGrows(full, m, m + 1);
    WriteKeeps(mid, after, before, full, m + 1, n, m);
    NotYetPlaced(after, before, full, m + 1, m + 1);
    GrowStep(inode, after, before, n, full, m + 1, m + 2);
  }

  /** The second-level block of entry a0 is placed, and differs from every other index block placed. */
  lemma L1Apart(inode: DiskInode, blocks: seq<Block>, before: seq<Block>, n: nat, a0: nat, b0: nat, full: seq<u32>, m: nat)
    requires a0 < INODE_INDIRECT1_COUNT && 0 < b0 < INODE_INDIRECT1_COUNT && n == INDIRECT1_BOUND + 128 * a0 + b0
    requires Grown(inode, blocks, before, n, [], full, m)
    ensures var l1 := L1Id(inode, blocks, a0);
      L1Pos(a0) < m && full[L1Pos(a0)] == l1 && l1 < |blocks| && l1 != inode.indirect2 && l1 != inode.indirect1
      && forall a :: 0 <= a < a0 ==> L1Id(inode, blocks, a) != l1
  {
    var l1 := L1Id(inode, blocks, a0);
    var j0, k0 := L1PosForm(a0);
    TotalAtBounds();
    L1Placed(inode, blocks, n, [], full, m, a0);
    Indirect2Placed(inode, blocks, before, n, full, m);
    Indirect1PlacedPast(inode, blocks, n, [], full, m);
    if a0 > 0 {
      PosOrder(INDIRECT1_BOUND, 0, j0, k0);
    }
    forall a | 0 <= a < a0
      ensures L1Id(inode, blocks, a) != l1
    {
      L1Placed(inode, blocks, n, [], full, m, a);
      var j, kk := L1PosForm(a);
      PosOrder(j, kk, j0, k0);
    }
  }

  lemma DoubleOldGrows(inode: DiskInode, blocks: seq<Block>, n: nat, a0: nat, b0: nat, full: seq<u32>, m: nat)
    requires inode.Shaped() && a0 < INODE_INDIRECT1_COUNT && 0 < b0 < INODE_INDIRECT1_COUNT && n == INDIRECT1_BOUND + 128 * a0 + b0
    requires m < |full| && LayoutUpTo(inode, blocks, n) == full[..m]
    requires var l1 := L1Id(inode, blocks, a0);
      l1 < |blocks| && l1 != inode.indirect2 && l1 != inode.indirect1
      && forall a :: 0 <= a < a0 ==> L1Id(inode, blocks, a) != l1
    ensures LayoutUpTo(inode, WriteEntry(blocks, L1Id(inode, blocks, a0), b0, full[m]), n + 1) == full[..m + 1]
  {
    Indirect2OldStep(inode, blocks, n, a0, b0, full[m]);
    PrefixSnoc(full, m);
  }

  /** increase_size, doubly-indirect range: entry b0 > 0 of the existing second-level block of entry a0. */
  lemma GrowDoubleOld(inode: DiskInode, blocks: seq<Block>, before: seq<Block>, n: nat, a0: nat, b0: nat, full: seq<u32>, m: nat)
    requires a0 < INODE_INDIRECT1_COUNT && 0 < b0 < INODE_INDIRECT1_COUNT && n == INDIRECT1_BOUND + 128 * a0 + b0
    requires Grown(inode, blocks, before, n, [], full, m) && m < |full|
    ensures L1Id(inode, blocks, a0) < |blocks|
    ensures Grown(inode, WriteEntry(blocks, L1Id(inode, blocks, a0), b0, full[m]), before, n + 1, [], full, m + 1)
  {
    var l1 := L1Id(inode, blocks, a0);
    var j0, k0 := L1PosForm(a0);
    L1Apart(inode, blocks, before, n, a0, b0, full, m);
    var after := WriteEntry(blocks, l1, b0, full[m]);
    DoubleOldGrows(inode, blocks, n, a0, b0, full, m);
    GrowByWrite(inode, blocks, after, before, n, [], full, m, L1Pos(a0), j0, k0);
  }

  /** `full` continues, from position `base`, with the ids handed to increase_size. */
  ghost predicate Feeds(newBlocks: seq<u32>, full: seq<u32>, base: nat) {
    base <= |full| && |full| - base <= |newBlocks|
    && forall q :: base <= q < |full| ==> full[q] == newBlocks[q - base]
  }

  /** The blocks a grown file occupies, with the new ones appended. */
  function Grow(inode: DiskInode, blocks: seq<Block>, newSize: u32, newBlocks: seq<u32>): (r: seq<u32>)
    requires inode.Shaped() && DataBlocks(inode.size) <= DataBlocks(newSize) <= MAX_DATA_BLOCKS
    requires Total(DataBlocks(newSize)) <= Total(DataBlocks(inode.size)) + |newBlocks|
    ensures |r| == Total(DataBlocks(newSize)) && Total(DataBlocks(inode.size)) <= |r|
    ensures r[..Total(DataBlocks(inode.size))] == Layout(inode, blocks)
  {
    var d0 := DataBlocks(inode.size);
    var d1 := DataBlocks(newSize);
    TotalMonotone(d0, d1);
    var r := Layout(inode, blocks) + newBlocks[..Total(d1) - Total(d0)];
    assert r[..Total(d0)] == Layout(inode, blocks);
    r
  }

  /** Before the first step: the resized inode still has the old layout, and nothing is written. */
  lemma GrowStart(inode: DiskInode, blocks: seq<Block>, newSize: u32, newBlocks: seq<u32>)
    requires WellFormed(inode, blocks) && DataBlocks(inode.size) <= DataBlocks(newSize) <= MAX_DATA_BLOCKS
    requires Total(DataBlocks(newSize)) <= Total(DataBlocks(inode.size)) + |newBlocks|
    requires var full := Grow(inode, blocks, newSize, newBlocks); Distinct(full) && InDevice(full, blocks)
    ensures var full := Grow(inode, blocks, newSize, newBlocks);
      Grown(inode.(size := newSize), blocks, blocks, DataBlocks(inode.size), [], full, Total(DataBlocks(inode.size)))
      && Feeds(newBlocks, full, Total(DataBlocks(inode.size)))
  {
    var r := inode.(size := newSize);
    var d0 := DataBlocks(inode.size);
    LayoutFrame(inode, blocks, r, blocks, d0);
    forall i | 0 <= i < d0
      ensures DataPos(i) < Total(d0)
    {
      DataPosBelow(i, d0);
    }
  }

  /** After the last step the file's layout is the old one followed by the new blocks. */
  lemma GrowDone(r: DiskInode, blocks: seq<Block>, before: seq<Block>, n: nat, full: seq<u32>, m: nat)
    requires Grown(r, blocks, before, n, [], full, m) && DataBlocks(r.size) == n && |full| == Total(n)
    ensures Layout(r, blocks) == full && WellFormed(r, blocks) && |blocks| == |before|
    ensures forall id :: 0 <= id < |blocks| && id !in full ==> blocks[id] == before[id]
    ensures forall i :: 0 <= i < n ==> Read(blocks, BlockId(r, blocks, i)) == Read(before, BlockId(r, blocks, i))
  {
    assert full[..m] == full;
    forall i | 0 <= i < n
      ensures Read(blocks, BlockId(r, blocks, i)) == Read(before, BlockId(r, blocks, i))
    {
      DataAt(r, blocks, n, i);
    }
  }

  /** A block of `full` past `base` is the matching entry of the caller's `new_blocks`. */
  lemma FeedAt(newBlocks: seq<u32>, full: seq<u32>, base: nat, k: nat, m: nat)
    requires Feeds(newBlocks, full, base) && m == base + k && m < |full|
    ensures k < |newBlocks| && newBlocks[k] == full[m]
  {
  }

  /** While data blocks remain to be placed, `full` still holds the next one and the index blocks it brings in. */
  lemma GrownRoom(inode: DiskInode, blocks: seq<Block>, before: seq<Block>, n: nat, pending: seq<u32>,
                  full: seq<u32>, m: nat, total: nat)
    requires Grown(inode, blocks, before, n, pending, full, m) && n < total && |full| == Total(total)
    requires |pending| <= BoundaryCount(n)
    ensures m + 1 + BoundaryCount(n) - |pending| <= |full|
  {
    TotalStep(n);
    TotalMonotone(n + 1, total);
    assert |full[..m]| == m;
  }

  /**
   * Grown, restated for equal arguments: keeps the large predicate out of
   * the callers' arithmetic on positions and counters.
   */
  lemma GrownAt(inode: DiskInode, blocks: seq<Block>, before: seq<Block>, n: nat, pending: seq<u32>, full: seq<u32>, m: nat,
                inode2: DiskInode, blocks2: seq<Block>, n2: nat, pending2: seq<u32>, m2: nat)
    requires Grown(inode, blocks, before, n, pending, full, m)
    requires inode2 == inode && blocks2 == blocks && n2 == n && pending2 == pending && m2 == m
    ensures Grown(inode2, blocks2, before, n2, pending2, full, m2)
  {
  }

  /** The index blocks a data block of the doubly-indirect range brings in. */
  lemma DoubleBoundaryCount(a0: nat, b0: nat)
    requires b0 < INODE_INDIRECT1_COUNT
    ensures BoundaryCount(INDIRECT1_BOUND + 128 * a0 + b0) == (if b0 > 0 then 0 else if a0 == 0 then 2 else 1)
  {
    var n := INDIRECT1_BOUND + 128 * a0 + b0;
    assert n - INDIRECT1_BOUND == 128 * a0 + b0;
    assert (128 * a0 + b0) % 128 == b0;
  }

  /** GrowDoubleNew, stated on the ids the loop hands over and on the loop's own counters. */
  lemma GrowDoubleNewAt(inode: DiskInode, blocks: seq<Block>, before: seq<Block>, n: nat, a0: nat, pending: seq<u32>,
                        full: seq<u32>, m: nat, y: u32, x: u32, n2: nat, m2: nat)
    requires a0 < INODE_INDIRECT1_COUNT && n == INDIRECT1_BOUND + 128 * a0 && m + 1 < |full|
    requires pending == (if n == INDIRECT1_BOUND then [inode.indirect2] else [])
    requires Grown(inode, blocks, before, n, pending, full, m)
    requires y == full[m] && x == full[m + 1] && n2 == n + 1 && m2 == m + 2
    ensures inode.indirect2 < |blocks| && y < |blocks|
    ensures var mid := WriteEntry(blocks, inode.indirect2, a0, y);
      Grown(inode, WriteEntry(mid, Entry(Read(mid, inode.indirect2), a0), 0, x), before, n2, [], full, m2)
  {
    GrowDoubleNew(inode, blocks, before, n, a0, pending, full, m);
  }

  /** GrowDoubleOld, stated on the ids the loop hands over and on the loop's own counters. */
  lemma GrowDoubleOldAt(inode: DiskInode, blocks: seq<Block>, before: seq<Block>, n: nat, a0: nat, b0: nat,
                        full: seq<u32>, m: nat, x: u32, n2: nat, m2: nat)
    requires a0 < INODE_INDIRECT1_COUNT && 0 < b0 < INODE_INDIRECT1_COUNT && n == INDIRECT1_BOUND + 128 * a0 + b0
    requires Grown(inode, blocks, before, n, [], full, m) && m < |full|
    requires x == full[m] && n2 == n + 1 && m2 == m + 1
    ensures Entry(Read(blocks, inode.indirect2), a0) < |blocks|
    ensures Grown(inode, WriteEntry(blocks, Entry(Read(blocks, inode.indirect2), a0), b0, x), before, n2, [], full, m2)
  {
    GrowDoubleOld(inode, blocks, before, n, a0, b0, full, m);
  }

  /** One step of the doubly-indirect loop that starts a new second-level block. */
  method PlaceDoubleNew(r: DiskInode, disk: Disk, newBlocks: seq<u32>, k: nat, ghost n: nat, a0: nat,
                        ghost before: seq<Block>, ghost pending: seq<u32>, ghost full: seq<u32>, ghost base: nat, ghost m: nat)
    returns (k2: nat, ghost n2: nat, ghost m2: nat)
    requires a0 < INODE_INDIRECT1_COUNT && n == INDIRECT1_BOUND + 128 * a0
    requires Feeds(newBlocks, full, base) && m == base + k && m + 1 + BoundaryCount(n) - |pending| <= |full|
    requires pending == (if n == INDIRECT1_BOUND then [r.indirect2] else [])
    requires Grown(r, disk.blocks, before, n, pending, full, m)
    modifies disk
    ensures k2 == k + 2 && n2 == n + 1 && m2 == base + k2
    ensures Grown(r, disk.blocks, before, n2, [], full, m2)
  {
    DoubleBoundaryCount(a0, 0);
    FeedAt(newBlocks, full, base, k, m);
    FeedAt(newBlocks, full, base, k + 1, m + 1);
    k2, n2, m2 := k + 2, n + 1, m + 2;
    GrowDoubleNewAt(r, disk.blocks, before, n, a0, pending, full, m, newBlocks[k], newBlocks[k + 1], n2, m2);
    disk.blocks := WriteEntry(disk.blocks, r.indirect2, a0, newBlocks[k]);
    // the new second-level block, read back from the doubly-indirect block
    disk.blocks := WriteEntry(disk.blocks, Entry(Read(disk.blocks, r.indirect2), a0), 0, newBlocks[k + 1]);
  }

  /** One step of the doubly-indirect loop that appends to the current second-level block. */
  method PlaceDoubleOld(r: DiskInode, disk: Disk, newBlocks: seq<u32>, k: nat, ghost n: nat, a0: nat, b0: nat,
                        ghost before: seq<Block>, ghost pending: seq<u32>, ghost full: seq<u32>, ghost base: nat, ghost m: nat)
    returns (k2: nat, ghost n2: nat, ghost m2: nat)
    requires a0 < INODE_INDIRECT1_COUNT && 0 < b0 < INODE_INDIRECT1_COUNT && n == INDIRECT1_BOUND + 128 * a0 + b0
    requires Feeds(newBlocks, full, base) && m == base + k && m + 1 + BoundaryCount(n) - |pending| <= |full|
    requires pending == (if n == INDIRECT1_BOUND then [r.indirect2] else [])
    requires Grown(r, disk.blocks, before, n, pending, full, m)
    modifies disk
    ensures k2 == k + 1 && n2 == n + 1 && m2 == base + k2
    ensures Grown(r, disk.blocks, before, n2, [], full, m2)
  {
    DoubleBoundaryCount(a0, b0);
    FeedAt(newBlocks, full, base, k, m);
    k2, n2, m2 := k + 1, n + 1, m + 1;
    GrowDoubleOldAt(r, disk.blocks, before, n, a0, b0, full, m, newBlocks[k], n2, m2);
    disk.blocks := WriteEntry(disk.blocks, Entry(Read(disk.blocks, r.indirect2), a0), b0, newBlocks[k]);
  }

  /** One step of the first loop: direct slot `current` takes the next new block. */
  method PlaceDirect(r: DiskInode, newBlocks: seq<u32>, current: nat, k: nat,
                     ghost blocks: seq<Block>, ghost before: seq<Block>, ghost full: seq<u32>, ghost base: nat, ghost m: nat)
    returns (r2: DiskInode, current2: nat, k2: nat, ghost m2: nat)
    requires current < DIRECT_BOUND && Feeds(newBlocks, full, base) && m == base + k && m < |full|
    requires Grown(r, blocks, before, current, [], full, m)
    ensures r2 == r.(direct := r2.direct) && current2 == current + 1 && k2 == k + 1 && m2 == base + k2
    ensures Grown(r2, blocks, before, current2, [], full, m2)
  {
    FeedAt(newBlocks, full, base, k, m);
    GrowDirect(r, blocks, before, current, full, m);
    r2, current2, k2, m2 := r.(direct := r.direct[current := newBlocks[k]]), current + 1, k + 1, m + 1;
    GrownAt(r.(direct := r.direct[current := full[m]]), blocks, before, current + 1, [], full, m + 1,
            r2, blocks, current2, [], m2);
  }

  /** increase_size, first loop: the direct slots from `current0` up to min(total, 28). */
  method FillDirect(r0: DiskInode, newBlocks: seq<u32>, current0: nat, total: nat, k0: nat,
                    ghost blocks: seq<Block>, ghost before: seq<Block>, ghost full: seq<u32>, ghost base: nat, ghost m0: nat)
    returns (r: DiskInode, current: nat, k: nat, ghost m: nat)
    requires current0 <= total <= MAX_DATA_BLOCKS && Feeds(newBlocks, full, base) && |full| == Total(total)
    requires m0 == base + k0 && Grown(r0, blocks, before, current0, [], full, m0)
    ensures r == r0.(direct := r.direct)
    ensures current0 <= current <= total && (current == total || DIRECT_BOUND <= current)
    ensures m == base + k && Grown(r, blocks, before, current, [], full, m)
  {
    r, current, k, m := r0, current0, k0, m0;
    while current < (if total < DIRECT_BOUND then total else DIRECT_BOUND)
      invariant current0 <= current <= total && r == r0.(direct := r.direct) && m == base + k
      invariant Grown(r, blocks, before, current, [], full, m)
    {
      GrownRoom(r, blocks, before, current, [], full, m, total);
      r, current, k, m := PlaceDirect(r, newBlocks, current, k, blocks, before, full, base, m);
    }
  }

  /** increase_size: the singly-indirect block is taken from the supply once the direct slots are full. */
  method AllocIndirect1(r: DiskInode, newBlocks: seq<u32>, current: nat, k: nat,
                        ghost blocks: seq<Block>, ghost before: seq<Block>, ghost full: seq<u32>, ghost base: nat, ghost m: nat)
    returns (r2: DiskInode, k2: nat, ghost pending: seq<u32>, ghost m2: nat)
    requires current == DIRECT_BOUND && Feeds(newBlocks, full, base) && m == base + k && m < |full|
    requires Grown(r, blocks, before, current, [], full, m)
    ensures r2 == r.(indirect1 := r2.indirect1) && k2 == k + 1 && m2 == base + k2 && pending == [r2.indirect1]
    ensures Grown(r2, blocks, before, current, pending, full, m2)
  {
    FeedAt(newBlocks, full, base, k, m);
    GrowIndirect1Alloc(r, blocks, before, full, m);
    r2, k2, pending, m2 := r.(indirect1 := newBlocks[k]), k + 1, [newBlocks[k]], m + 1;
    GrownAt(r.(indirect1 := full[m]), blocks, before, DIRECT_BOUND, [full[m]], full, m + 1,
            r2, blocks, current, pending, m2);
  }

  /** One step of the second loop: entry `current` - 28 of the singly-indirect block takes the next new block. */
  method PlaceIndirect1(r: DiskInode, disk: Disk, newBlocks: seq<u32>, current: nat, k: nat,
                        ghost before: seq<Block>, ghost pending: seq<u32>, ghost full: seq<u32>, ghost base: nat, ghost m: nat)
    returns (current2: nat, k2: nat, ghost m2: nat)
    requires DIRECT_BOUND <= current < INDIRECT1_BOUND && Feeds(newBlocks, full, base) && m == base + k && m < |full|
    requires pending == (if current == DIRECT_BOUND then [r.indirect1] else [])
    requires Grown(r, disk.blocks, before, current, pending, full, m)
    modifies disk
    ensures current2 == current + 1 && k2 == k + 1 && m2 == base + k2
    ensures Grown(r, disk.blocks, before, current2, [], full, m2)
  {
    FeedAt(newBlocks, full, base, k, m);
    GrowIndirect1(r, disk.blocks, before, current, full, m);
    ghost var blocks := disk.blocks;
    disk.blocks := WriteEntry(disk.blocks, r.indirect1, current - DIRECT_BOUND, newBlocks[k]);
    current2, k2, m2 := current + 1, k + 1, m + 1;
    GrownAt(r, WriteEntry(blocks, r.indirect1, current - DIRECT_BOUND, full[m]), before, current + 1, [], full, m + 1,
            r, disk.blocks, current2, [], m2);
  }

  /** increase_size, the singly-indirect block: entries from `current0` - 28 up to min(total, 156) - 28. */
  method FillIndirect1(r: DiskInode, disk: Disk, newBlocks: seq<u32>, current0: nat, total: nat, k0: nat,
                       ghost before: seq<Block>, ghost pending0: seq<u32>, ghost full: seq<u32>, ghost base: nat, ghost m0: nat)
    returns (current: nat, k: nat, ghost m: nat)
    requires DIRECT_BOUND <= current0 <= total <= MAX_DATA_BLOCKS && DIRECT_BOUND < total
    requires Feeds(newBlocks, full, base) && |full| == Total(total) && m0 == base + k0
    requires pending0 == (if current0 == DIRECT_BOUND then [r.indirect1] else [])
    requires Grown(r, disk.blocks, before, current0, pending0, full, m0)
    modifies disk
    ensures current0 <= current <= total && DIRECT_BOUND < current && (current == total || INDIRECT1_BOUND <= current)
    ensures m == base + k && Grown(r, disk.blocks, before, current, [], full, m)
  {
    current, k, m := current0, k0, m0;
    ghost var pending := pending0;
    while current < (if total < INDIRECT1_BOUND then total else INDIRECT1_BOUND)
      invariant current0 <= current <= total && m == base + k
      invariant pending == (if current == DIRECT_BOUND then [r.indirect1] else [])
      invariant Grown(r, disk.blocks, before, current, pending, full, m)
    {
      GrownRoom(r, disk.blocks, before, current, pending, full, m, total);
      current, k, m := PlaceIndirect1(r, disk, newBlocks, current, k, before, pending, full, base, m);
      pending := [];
    }
  }

  /** increase_size: the doubly-indirect block is taken from the supply once the singly-indirect range is full. */
  method AllocIndirect2(r: DiskInode, newBlocks: seq<u32>, current: nat, k: nat,
                        ghost blocks: seq<Block>, ghost before: seq<Block>, ghost full: seq<u32>, ghost base: nat, ghost m: nat)
    returns (r2: DiskInode, k2: nat, ghost pending: seq<u32>, ghost m2: nat)
    requires current == INDIRECT1_BOUND && Feeds(newBlocks, full, base) && m == base + k && m < |full|
    requires Grown(r, blocks, before, current, [], full, m)
    ensures r2 == r.(indirect2 := r2.indirect2) && k2 == k + 1 && m2 == base + k2 && pending == [r2.indirect2]
    ensures Grown(r2, blocks, before, current, pending, full, m2)
  {
    FeedAt(newBlocks, full, base, k, m);
    GrowIndirect2Alloc(r, blocks, before, full, m);
    r2, k2, pending, m2 := r.(indirect2 := newBlocks[k]), k + 1, [newBlocks[k]], m + 1;
    GrownAt(r.(indirect2 := full[m]), blocks, before, INDIRECT1_BOUND, [full[m]], full, m + 1,
            r2, blocks, current, pending, m2);
  }

  /**
   * increase_size, the doubly-indirect block: walks (a0, b0) up to (a1, b1),
   * allocating a second-level block whenever b0 is 0.
   */
  method FillIndirect2(r: DiskInode, disk: Disk, newBlocks: seq<u32>, current: nat, total: nat, k0: nat,
                       ghost before: seq<Block>, ghost pending0: seq<u32>, ghost full: seq<u32>, ghost base: nat, ghost m0: nat)
    returns (k: nat, ghost m: nat)
    requires INDIRECT1_BOUND <= current <= total <= MAX_DATA_BLOCKS && INDIRECT1_BOUND < total
    requires Feeds(newBlocks, full, base) && |full| == Total(total) && m0 == base + k0
    requires pending0 == (if current == INDIRECT1_BOUND then [r.indirect2] else [])
    requires Grown(r, disk.blocks, before, current, pending0, full, m0)
    modifies disk
    ensures m == base + k && Grown(r, disk.blocks, before, total, [], full, m)
  {
    k, m := k0, m0;
    var a0: nat := (current - INDIRECT1_BOUND) / 128;
    var b0: nat := (current - INDIRECT1_BOUND) % 128;
    var a1: nat := (total - INDIRECT1_BOUND) / 128;
    var b1: nat := (total - INDIRECT1_BOUND) % 128;
    ghost var qa, qb := Split2(current);
    ghost var ta, tb := Split2(total);
    // the data blocks placed so far, 156 + 128 * a0 + b0, and the blocks of `full` used
    ghost var n := current;
    ghost var pending := pending0;
    while a0 < a1 || (a0 == a1 && b0 < b1)
      invariant b0 < 128 && n == INDIRECT1_BOUND + 128 * a0 + b0 && n <= total && m == base + k
      invariant pending == (if n == INDIRECT1_BOUND then [r.indirect2] else [])
      invariant Grown(r, disk.blocks, before, n, pending, full, m)
      decreases total - n
    {
      GrownRoom(r, disk.blocks, before, n, pending, full, m, total);
      if b0 == 0 {
        k, n, m := PlaceDoubleNew(r, disk, newBlocks, k, n, a0, before, pending, full, base, m);
      } else {
        k, n, m := PlaceDoubleOld(r, disk, newBlocks, k, n, a0, b0, before, pending, full, base, m);
      }
      pending := [];
      b0 := b0 + 1;
      if b0 == 128 {
        b0 := 0;
        a0 := a0 + 1;
      }
    }
    assert n == total;
    GrownAt(r, disk.blocks, before, n, pending, full, m, r, disk.blocks, total, [], m);
  }

  /**
   * DiskInode::increase_size: sets the size to `newSize` and fills the
   * direct slots, the singly-indirect block and the doubly-indirect tree
   * with ids taken in order from `newBlocks`, allocating each index block
   * from the same supply when it is first needed.
   */
  method IncreaseSize(inode: DiskInode, newSize: u32, newBlocks: seq<u32>, disk: Disk) returns (r: DiskInode)
    requires WellFormed(inode, disk.blocks) && DataBlocks(inode.size) <= DataBlocks(newSize) <= MAX_DATA_BLOCKS
    requires Total(DataBlocks(newSize)) <= Total(DataBlocks(inode.size)) + |newBlocks|
    requires var full := Grow(inode, disk.blocks, newSize, newBlocks); Distinct(full) && InDevice(full, disk.blocks)
    modifies disk
    ensures r.size == newSize && r.kind == inode.kind && WellFormed(r, disk.blocks)
    ensures Layout(r, disk.blocks) == Grow(inode, old(disk.blocks), newSize, newBlocks)
    ensures |disk.blocks| == |old(disk.blocks)|
    ensures forall id :: 0 <= id < |disk.blocks| && id !in Layout(r, disk.blocks) ==> disk.blocks[id] == old(disk.blocks)[id]
    ensures forall i :: 0 <= i < DataBlocks(newSize) ==>
      Read(disk.blocks, BlockId(r, disk.blocks, i)) == Read(old(disk.blocks), BlockId(r, disk.blocks, i))
  {
    ghost var before := disk.blocks;
    ghost var full := Grow(inode, disk.blocks, newSize, newBlocks);
    ghost var base := Total(DataBlocks(inode.size));
    var current := DataBlocks(inode.size);
    r := inode.(size := newSize);
    var total := DataBlocks(newSize);
    GrowStart(inode, disk.blocks, newSize, newBlocks);
    var k;
    ghost var m, pending;
    r, current, k, m := FillDirect(r, newBlocks, current, total, 0, disk.blocks, before, full, base, base);
    if total <= DIRECT_BOUND {
      GrowDone(r, disk.blocks, before, current, full, m);
      return;
    }
    pending := [];
    if current == DIRECT_BOUND {
      GrownRoom(r, disk.blocks, before, current, [], full, m, total);
      r, k, pending, m := AllocIndirect1(r, newBlocks, current, k, disk.blocks, before, full, base, m);
    }
    current, k, m := FillIndirect1(r, disk, newBlocks, current, total, k, before, pending, full, base, m);
    if total <= INDIRECT1_BOUND {
      GrowDone(r, disk.blocks, before, current, full, m);
      return;
    }
    pending := [];
    if current == INDIRECT1_BOUND {
      GrownRoom(r, disk.blocks, before, current, [], full, m, total);
      r, k, pending, m := AllocIndirect2(r, newBlocks, current, k, disk.blocks, before, full, base, m);
    }
    k, m := FillIndirect2(r, disk, newBlocks, current, total, k, before, pending, full, base, m);
    GrowDone(r, disk.blocks, before, total, full, m);
  }
}
