/**
 * The directory operations of the easy-fs VFS layer: a directory is a file
 * whose bytes are a flat array of 32-byte directory entries, in the order
 * they were created. find and readdir read them; create appends one.
 */
module VfsDir {
  import opened Words
  import opened Wrappers
  import opened EfsBlock
  import opened EfsBitmap
  import opened EfsInode
  import opened EfsLayout
  import opened EfsReadWrite
  import opened Efs
  import opened VfsInode

  /** How many entries the largest directory holds: MAX_FILE_SIZE / DIRENT_SZ. */
  const MAX_ENTRIES: nat := 264640

  /** The number of entries of a directory of this size. */
  function EntryCount(inode: DiskInode): (n: nat)
    requires Sized(inode)
    ensures n <= MAX_ENTRIES && n * DIRENT_SZ <= inode.size as int < (n + 1) * DIRENT_SZ
  {
    inode.size as int / DIRENT_SZ
  }

  /** The 32 bytes of entry `i` of the directory. */
  function EntryBytesAt(inode: DiskInode, blocks: seq<Block>, i: nat): (r: seq<u8>)
    requires inode.Shaped() && i < MAX_ENTRIES
    ensures |r| == DIRENT_SZ
  {
    seq(DIRENT_SZ, k requires 0 <= k < DIRENT_SZ => EntryByte(inode, blocks, i, k))
  }

  /** Byte `k` of entry `i` of the directory. */
  function EntryByte(inode: DiskInode, blocks: seq<Block>, i: nat, k: int): (b: u8)
    requires inode.Shaped() && i < MAX_ENTRIES && 0 <= k < DIRENT_SZ
  {
    assert i * DIRENT_SZ + k < MAX_FILE_SIZE;
    ByteAt(inode, blocks, i * DIRENT_SZ + k)
  }

  /** Entry `i` of the directory. */
  function EntryAt(inode: DiskInode, blocks: seq<Block>, i: nat): DirEntry
    requires inode.Shaped() && i < MAX_ENTRIES
  {
    EntryOf(EntryBytesAt(inode, blocks, i))
  }

  /** The entries of a directory: `size / DIRENT_SZ` of them, each read from its 32 bytes. */
  function Entries(inode: DiskInode, blocks: seq<Block>): (es: seq<DirEntry>)
    requires inode.Shaped() && Sized(inode)
    ensures |es| == EntryCount(inode)
    ensures forall i :: 0 <= i < |es| ==> es[i] == EntryAt(inode, blocks, i)
  {
    var count := EntryCount(inode);
    seq(count, i requires 0 <= i < count => EntryAt(inode, blocks, i))
  }

  /** Entry `i` of a `size`-byte directory lies inside it. */
  lemma EntryFits(size: nat, i: nat)
    requires i < size / DIRENT_SZ
    ensures (i + 1) * DIRENT_SZ <= size
  {
  }

  /** Index of the first entry named `name`. */
  function FirstNamed(es: seq<DirEntry>, name: seq<u8>): (r: Option<nat>)
    ensures r.Some? ==>
      r.value < |es| && NameAsWritten(es[r.value]) == name && forall j :: 0 <= j < r.value ==> NameAsWritten(es[j]) != name
    ensures r.None? ==> forall j :: 0 <= j < |es| ==> NameAsWritten(es[j]) != name
  {
    if es == [] then None
    else if NameAsWritten(es[0]) == name then Some(0)
    else match FirstNamed(es[1..], name) {
      case None => None
      case Some(k) => Some(k + 1)
    }
  }

  /** The inode number find_inode_id returns for `name`: that of the first entry so named. */
  function Lookup(es: seq<DirEntry>, name: seq<u8>): (r: Option<u32>)
    ensures r.Some? <==> exists j :: 0 <= j < |es| && NameAsWritten(es[j]) == name
  {
    match FirstNamed(es, name) {
      case None => None
      case Some(k) => Some(es[k].inodeNumber)
    }
  }

  /** A name found at `i` with no earlier entry of that name is the one Lookup finds. */
  lemma LookupAt(es: seq<DirEntry>, name: seq<u8>, i: nat)
    requires i < |es| && NameAsWritten(es[i]) == name && forall j :: 0 <= j < i ==> NameAsWritten(es[j]) != name
    ensures Lookup(es, name) == Some(es[i].inodeNumber)
  {
    var r := FirstNamed(es, name);
    assert r.Some?;
    assert !(r.value < i) && !(i < r.value);
  }

  /** Appending an entry changes no earlier answer and finds the new name when it was absent. */
  lemma LookupAppend(es: seq<DirEntry>, e: DirEntry, name: seq<u8>)
    ensures Lookup(es, name).Some? ==> Lookup(es + [e], name) == Lookup(es, name)
    ensures Lookup(es, name).None? ==> Lookup(es + [e], name) == if NameAsWritten(e) == name then Some(e.inodeNumber) else None
  {
    var all := es + [e];
    match FirstNamed(es, name) {
      case Some(k) =>
        LookupAt(all, name, k);
      case None =>
        if NameAsWritten(e) == name {
          LookupAt(all, name, |es|);
        } else {
          assert forall j :: 0 <= j < |all| ==> NameAsWritten(all[j]) != name by {
            forall j | 0 <= j < |all| ensures NameAsWritten(all[j]) != name {
              if j < |es| { assert all[j] == es[j]; }
            }
          }
        }
    }
  }

  /** The names readdir lists, one per entry, in entry order. */
  function Names(es: seq<DirEntry>): (r: seq<seq<u8>>)
    ensures |r| == |es| && forall i :: 0 <= i < |es| ==> r[i] == NameAsWritten(es[i])
  {
    seq(|es|, i requires 0 <= i < |es| => NameAsWritten(es[i]))
  }

  /** Reading entry `i` of a directory into a 32-byte buffer gives its bytes. */
  method ReadEntry(inode: DiskInode, i: nat, dirent: array<u8>, blocks: seq<Block>)
    requires inode.Shaped() && Sized(inode) && i < EntryCount(inode) && dirent.Length == DIRENT_SZ
    modifies dirent
    ensures dirent[..] == EntryBytesAt(inode, blocks, i)
  {
    EntryFits(inode.size as int, i);
    var n := ReadAt(inode, i * DIRENT_SZ, dirent, blocks);
    assert n == DIRENT_SZ;
  }

  /** Entry `i`, decoded from the buffer it was read into. */
  method LoadEntry(inode: DiskInode, i: nat, dirent: array<u8>, blocks: seq<Block>) returns (e: DirEntry)
    requires inode.Shaped() && Sized(inode) && i < EntryCount(inode) && dirent.Length == DIRENT_SZ
    modifies dirent
    ensures e == EntryAt(inode, blocks, i)
  {
    ReadEntry(inode, i, dirent, blocks);
    e := EntryOf(dirent[..]);
  }

  /** No entry before `i` is named `name`. */
  predicate Unnamed(inode: DiskInode, blocks: seq<Block>, name: seq<u8>, i: nat)
    requires inode.Shaped() && i <= MAX_ENTRIES
  {
    forall j :: 0 <= j < i ==> NameAsWritten(EntryAt(inode, blocks, j)) != name
  }

  /** A search that passes a non-matching entry `i` has seen no match up to `i + 1`. */
  lemma UnnamedNext(inode: DiskInode, blocks: seq<Block>, name: seq<u8>, i: nat)
    requires inode.Shaped() && i < MAX_ENTRIES
    requires Unnamed(inode, blocks, name, i) && NameAsWritten(EntryAt(inode, blocks, i)) != name
    ensures Unnamed(inode, blocks, name, i + 1)
  {
  }

  /** The entry a search stopped at is the one Lookup finds. */
  lemma FoundAt(inode: DiskInode, blocks: seq<Block>, name: seq<u8>, i: nat)
    requires inode.Shaped() && Sized(inode) && i < EntryCount(inode)
    requires NameAsWritten(EntryAt(inode, blocks, i)) == name
    requires Unnamed(inode, blocks, name, i)
    ensures Lookup(Entries(inode, blocks), name) == Some(EntryAt(inode, blocks, i).inodeNumber)
  {
    LookupAt(Entries(inode, blocks), name, i);
  }

  /** A search that saw every entry without a match finds nothing. */
  lemma NotFound(inode: DiskInode, blocks: seq<Block>, name: seq<u8>)
    requires inode.Shaped() && Sized(inode)
    requires Unnamed(inode, blocks, name, EntryCount(inode))
    ensures Lookup(Entries(inode, blocks), name) == None
  {
  }

  /**
   * Inode::find_inode_id over the directory `inode`: the entries are read
   * one by one into a single buffer, and the first whose name equals
   * `name` gives the answer. The source asserts that the inode is a
   * directory.
   */
  method FindInodeId(inode: DiskInode, name: seq<u8>, blocks: seq<Block>) returns (r: Option<u32>)
    requires inode.Shaped() && Sized(inode) && inode.IsDir()
    ensures r == Lookup(Entries(inode, blocks), name)
  {
    var fileCount := EntryCount(inode);
    var dirent := new u8[DIRENT_SZ](_ => 0);
    var i := 0;
    while i < fileCount
      invariant i <= fileCount
      invariant Unnamed(inode, blocks, name, i)
    {
      var e := LoadEntry(inode, i, dirent, blocks);
      if NameAsWritten(e) == name {
        FoundAt(inode, blocks, name, i);
        return Some(e.inodeNumber);
      }
      UnnamedNext(inode, blocks, name, i);
      i := i + 1;
    }
    NotFound(inode, blocks, name);
    return None;
  }

  /** Inode::find: the handle of the inode the first entry named `name` points to. */
  method Find(fs: EasyFileSystem, dir: Inode, name: seq<u8>, disk: Disk) returns (r: Option<Inode>)
    requires Aligned(dir) && Sized(DiskInodeOf(disk.blocks, dir)) && DiskInodeOf(disk.blocks, dir).IsDir()
    ensures var found := Lookup(Entries(DiskInodeOf(disk.blocks, dir), disk.blocks), name);
      && (found.None? ==> r.None?)
      && (found.Some? ==> r == Some(NodeOf(fs, found.value)))
  {
    var inode := DiskInodeOf(disk.blocks, dir);
    var id := FindInodeId(inode, name, disk.blocks);
    if id.Some? {
      r := Some(NodeOf(fs, id.value));
    } else {
      r := None;
    }
  }

  /** `names` are the names of the first `i` entries, in order. */
  predicate Listed(inode: DiskInode, blocks: seq<Block>, names: seq<seq<u8>>, i: nat)
    requires inode.Shaped() && i <= MAX_ENTRIES
  {
    |names| == i && forall j :: 0 <= j < i ==> names[j] == NameAsWritten(EntryAt(inode, blocks, j))
  }

  /** Listing entry `i` after the first `i` lists the first `i + 1`. */
  lemma ListedNext(inode: DiskInode, blocks: seq<Block>, names: seq<seq<u8>>, i: nat)
    requires inode.Shaped() && i < MAX_ENTRIES
    requires Listed(inode, blocks, names, i)
    ensures Listed(inode, blocks, names + [NameAsWritten(EntryAt(inode, blocks, i))], i + 1)
  {
    var next := names + [NameAsWritten(EntryAt(inode, blocks, i))];
    forall j | 0 <= j < i + 1
      ensures next[j] == NameAsWritten(EntryAt(inode, blocks, j))
    {
      if j < i {
        assert next[j] == names[j];
      }
    }
  }

  /** Listing every entry gives the names of all of them. */
  lemma ListedAll(inode: DiskInode, blocks: seq<Block>, names: seq<seq<u8>>)
    requires inode.Shaped() && Sized(inode)
    requires Listed(inode, blocks, names, EntryCount(inode))
    ensures names == Names(Entries(inode, blocks))
  {
  }

  /** Inode::readdir: the name of every entry, in entry order. */
  method Readdir(dir: Inode, disk: Disk) returns (names: seq<seq<u8>>)
    requires Aligned(dir) && Sized(DiskInodeOf(disk.blocks, dir))
    ensures names == Names(Entries(DiskInodeOf(disk.blocks, dir), disk.blocks))
  {
    var blocks := disk.blocks;
    var inode := DiskInodeOf(blocks, dir);
    var fileCount := EntryCount(inode);
    names := [];
    var i := 0;
    while i < fileCount
      invariant i <= fileCount && Listed(inode, blocks, names, i)
    {
      var dirent := new u8[DIRENT_SZ](_ => 0);
      var e := LoadEntry(inode, i, dirent, blocks);
      ListedNext(inode, blocks, names, i);
      names := names + [NameAsWritten(e)];
      i := i + 1;
    }
    ListedAll(inode, blocks, names);
  }

  // ---------------------------------------------------------------------
  // create
  // ---------------------------------------------------------------------

  /** Every block from the data bitmap on reads the same in both states. */
  ghost predicate SameFromDataBitmap(fs: EasyFileSystem, before: seq<Block>, after: seq<Block>) {
    |after| == |before| && forall x: nat :: fs.dataBitmap.startBlockId <= x ==> Read(after, x) == Read(before, x)
  }

  /**
   * Changes confined to the bitmaps' and inodes' blocks before the data
   * bitmap leave a file's blocks, its bytes and the free data blocks alone.
   */
  lemma KeptAboveInodes(fs: EasyFileSystem, area: nat, before: seq<Block>, after: seq<Block>, inode: DiskInode)
    requires Fits(fs, area, before) && Owned(fs, area, before, inode) && SameFromDataBitmap(fs, before, after)
    ensures Fits(fs, area, after) && Owned(fs, area, after, inode) && Free(fs, area, after) == Free(fs, area, before)
    ensures forall p :: 0 <= p < DataBlocks(inode.size) * BLOCK_SZ ==> ByteAt(inode, after, p) == ByteAt(inode, before, p)
  {
    SameContents(inode, before, after);
    assert forall b: nat :: IsSet(after, fs.dataBitmap, b) == IsSet(before, fs.dataBitmap, b);
    assert Free(fs, area, after) == Free(fs, area, before);
  }

  /**
   * The first half of create: alloc_inode takes the lowest free inode
   * number and its slot is initialised as an empty file. Only blocks before
   * the data bitmap change, and of the inode bitmap only the new bit.
   */
  method NewFileInode(fs: EasyFileSystem, ghost area: nat, disk: Disk) returns (id: u32)
    requires Fits(fs, area, disk.blocks) && !Full(disk.blocks, fs.inodeBitmap)
    modifies disk
    ensures id < Maximum(fs.inodeBitmap) && !IsSet(old(disk.blocks), fs.inodeBitmap, id)
    ensures forall bit :: 0 <= bit < id ==> IsSet(old(disk.blocks), fs.inodeBitmap, bit)
    ensures IsSlot(fs, NodeOf(fs, id)) && DiskInodeOf(disk.blocks, NodeOf(fs, id)) == Initialized(File)
    ensures forall b: nat :: b < Maximum(fs.inodeBitmap) ==>
      IsSet(disk.blocks, fs.inodeBitmap, b) == (b == id || IsSet(old(disk.blocks), fs.inodeBitmap, b))
    ensures forall other :: IsSlot(fs, other) && other != NodeOf(fs, id) ==>
      DiskInodeOf(disk.blocks, other) == DiskInodeOf(old(disk.blocks), other)
    ensures SameFromDataBitmap(fs, old(disk.blocks), disk.blocks)
  {
    ghost var before := disk.blocks;
    id := AllocInode(fs, disk);
    NodeIsSlot(fs, before, area, id);
    ghost var marked := disk.blocks;
    disk.blocks := StoreAt(disk.blocks, NodeOf(fs, id), Initialized(File));
    InodeBitsKept(fs, before, marked, disk.blocks, id);
    InodeBlocksKept(fs, before, marked, disk.blocks, id);
  }

  /** The inode bitmap after marking `id` and storing into an inode slot. */
  lemma InodeBitsKept(fs: EasyFileSystem, before: seq<Block>, marked: seq<Block>, after: seq<Block>, id: u32)
    requires Valid(fs, before) && fs.inodeAreaStart + Maximum(fs.inodeBitmap) / INODES_PER_BLOCK <= fs.dataBitmap.startBlockId
    requires id < Maximum(fs.inodeBitmap) && IsSlot(fs, NodeOf(fs, id)) && marked == Marked(before, fs.inodeBitmap, id, true)
    requires |after| == |marked| && forall b :: b != NodeOf(fs, id).blockId ==> Read(after, b) == Read(marked, b)
    ensures forall b: nat :: b < Maximum(fs.inodeBitmap) ==>
      IsSet(after, fs.inodeBitmap, b) == (b == id || IsSet(before, fs.inodeBitmap, b))
  {
    forall b: nat | b < Maximum(fs.inodeBitmap)
      ensures IsSet(after, fs.inodeBitmap, b) == (b == id || IsSet(before, fs.inodeBitmap, b))
    {
      MarkedIsSet(before, fs.inodeBitmap, id, true, b);
      HolderInside(fs.inodeBitmap, b);
    }
  }

  /** Marking an inode bit and storing into an inode slot change nothing from the data bitmap on. */
  lemma InodeBlocksKept(fs: EasyFileSystem, before: seq<Block>, marked: seq<Block>, after: seq<Block>, id: u32)
    requires Valid(fs, before) && fs.inodeAreaStart + Maximum(fs.inodeBitmap) / INODES_PER_BLOCK <= fs.dataBitmap.startBlockId
    requires id < Maximum(fs.inodeBitmap) && IsSlot(fs, NodeOf(fs, id)) && marked == Marked(before, fs.inodeBitmap, id, true)
    requires |after| == |marked| && forall b :: b != NodeOf(fs, id).blockId ==> Read(after, b) == Read(marked, b)
    ensures forall other :: IsSlot(fs, other) ==> DiskInodeOf(marked, other) == DiskInodeOf(before, other)
    ensures SameFromDataBitmap(fs, before, after)
  {
    HolderInside(fs.inodeBitmap, id);
  }

  /** The bits of a bitmap live in its own blocks. */
  lemma HolderInside(bm: Bitmap, bit: nat)
    requires bit < Maximum(bm)
    ensures bm.startBlockId <= Holder(bm, bit) < bm.startBlockId + bm.blocks
  {
    assert bit / BLOCK_BITS < bm.blocks;
  }

  /** create's `new_size`: room for one more entry after the last whole one. */
  function NewDirSize(inode: DiskInode): (n: u32)
    requires Sized(inode) && EntryCount(inode) < MAX_ENTRIES
    ensures n as int == (EntryCount(inode) + 1) * DIRENT_SZ && inode.size < n && n as int <= MAX_FILE_SIZE
  {
    ((EntryCount(inode) + 1) * DIRENT_SZ) as u32
  }

  /**
   * A directory grown to `offset + DIRENT_SZ` bytes, with the bytes of `e`
   * written at `offset`, the end of its last whole entry, and its earlier
   * bytes kept, lists its old entries followed by `e`.
   */
  lemma AppendedEntries(inode: DiskInode, before: seq<Block>, r: DiskInode, after: seq<Block>, e: DirEntry, offset: nat)
    requires inode.Shaped() && Sized(inode) && r.Shaped() && Sized(r)
    requires EntryCount(inode) < MAX_ENTRIES && offset == EntryCount(inode) * DIRENT_SZ
    requires r.size as int == offset + DIRENT_SZ
    requires forall p :: offset <= p < offset + |EntryBytes(e)| ==> ByteAt(r, after, p) == EntryBytes(e)[p - offset]
    requires forall p :: 0 <= p < inode.size as int && !(offset <= p < offset + |EntryBytes(e)|) ==>
      ByteAt(r, after, p) == ByteAt(inode, before, p)
    ensures Entries(r, after) == Entries(inode, before) + [e]
  {
    var count := EntryCount(inode);
    var want := Entries(inode, before) + [e];
    var got := Entries(r, after);
    forall j | 0 <= j < count
      ensures got[j] == Entries(inode, before)[j]
    {
      KeptEntry(inode, before, r, after, j, offset, |EntryBytes(e)|);
    }
    LastEntry(r, after, e, offset);
    assert got[..count] == Entries(inode, before);
    LastAppended(got, Entries(inode, before), e);
  }

  /** A sequence one longer than `a`, starting with `a` and ending in `x`, is `a + [x]`. */
  lemma LastAppended<T>(s: seq<T>, a: seq<T>, x: T)
    requires |s| == |a| + 1 && s[..|a|] == a && s[|a|] == x
    ensures s == a + [x]
  {
    assert s == s[..|a|] + [s[|a|]];
  }

  /** An entry before the write's offset reads as it did. */
  lemma KeptEntry(inode: DiskInode, before: seq<Block>, r: DiskInode, after: seq<Block>, j: nat, offset: nat, len: nat)
    requires inode.Shaped() && Sized(inode) && r.Shaped()
    requires j < EntryCount(inode) && offset == EntryCount(inode) * DIRENT_SZ
    requires forall p :: 0 <= p < inode.size as int && !(offset <= p < offset + len) ==>
      ByteAt(r, after, p) == ByteAt(inode, before, p)
    ensures EntryAt(r, after, j) == EntryAt(inode, before, j)
  {
    forall k | 0 <= k < DIRENT_SZ
      ensures EntryBytesAt(r, after, j)[k] == EntryBytesAt(inode, before, j)[k]
    {
      EntryBefore(j, EntryCount(inode), k);
    }
    assert EntryBytesAt(r, after, j) == EntryBytesAt(inode, before, j);
  }

  /** The entry written at `offset` reads back as `e`. */
  lemma LastEntry(r: DiskInode, after: seq<Block>, e: DirEntry, offset: nat)
    requires r.Shaped() && offset % DIRENT_SZ == 0 && offset / DIRENT_SZ < MAX_ENTRIES
    requires forall p :: offset <= p < offset + |EntryBytes(e)| ==> ByteAt(r, after, p) == EntryBytes(e)[p - offset]
    ensures EntryAt(r, after, offset / DIRENT_SZ) == e
  {
    assert offset / DIRENT_SZ * DIRENT_SZ == offset;
    assert EntryBytesAt(r, after, offset / DIRENT_SZ) == EntryBytes(e);
    EntryRoundTrip(e);
  }

  /** Byte `k` of entry `j` lies before entry `count` when `j < count`. */
  lemma EntryBefore(j: nat, count: nat, k: nat)
    requires j < count && k < DIRENT_SZ
    ensures j * DIRENT_SZ + k < count * DIRENT_SZ
  {
    assert (j + 1) * DIRENT_SZ <= count * DIRENT_SZ;
  }

  /**
   * The second half of create, inside modify_disk_inode on the directory:
   * increase_size to NewDirSize and write the entry at the end of the last
   * whole entry, which is the grow-then-write of Inode::write_at. The
   * directory lists one more entry, `e`, at its end.
   */
  method AppendEntry(fs: EasyFileSystem, ghost area: nat, dir: Inode, e: DirEntry, disk: Disk)
    requires Fits(fs, area, disk.blocks) && IsSlot(fs, dir) && Owned(fs, area, disk.blocks, DiskInodeOf(disk.blocks, dir))
    requires EntryCount(DiskInodeOf(disk.blocks, dir)) < MAX_ENTRIES
    requires Room(fs, area, disk.blocks, DiskInodeOf(disk.blocks, dir), NewDirSize(DiskInodeOf(disk.blocks, dir)))
    modifies disk
    ensures Updated(fs, area, old(disk.blocks), disk.blocks, dir, NewDirSize(DiskInodeOf(old(disk.blocks), dir)) as int)
    ensures Entries(DiskInodeOf(disk.blocks, dir), disk.blocks) == Entries(DiskInodeOf(old(disk.blocks), dir), old(disk.blocks)) + [e]
  {
    ghost var before := disk.blocks;
    var inode := DiskInodeOf(disk.blocks, dir);
    var newSize := NewDirSize(inode);
    var offset := newSize as int - DIRENT_SZ;
    var buf := EntryBytes(e);
    assert offset < MAX_FILE_SIZE && offset + |buf| <= MAX_FILE_SIZE;
    assert Room(fs, area, disk.blocks, DiskInodeOf(disk.blocks, dir), offset + |buf|);
    var n := WriteAtNode(fs, area, dir, offset, buf, disk);
    AppendedEntries(inode, before, DiskInodeOf(disk.blocks, dir), disk.blocks, e, offset);
  }

  /** Storing into another slot and marking an inode bit leave the directory's slot, blocks and free set alone. */
  lemma DirKept(fs: EasyFileSystem, area: nat, dir: Inode, dirId: u32, id: u32, before: seq<Block>, after: seq<Block>)
    requires Fits(fs, area, before) && dir == NodeOf(fs, dirId) && dirId != id
    requires Owned(fs, area, before, DiskInodeOf(before, dir)) && SameFromDataBitmap(fs, before, after)
    requires dirId < Maximum(fs.inodeBitmap) && IsSlot(fs, NodeOf(fs, id))
    requires forall other :: IsSlot(fs, other) && other != NodeOf(fs, id) ==> DiskInodeOf(after, other) == DiskInodeOf(before, other)
    ensures IsSlot(fs, dir) && DiskInodeOf(after, dir) == DiskInodeOf(before, dir)
    ensures Fits(fs, area, after) && Owned(fs, area, after, DiskInodeOf(after, dir))
    ensures Free(fs, area, after) == Free(fs, area, before)
    ensures forall p :: 0 <= p < DataBlocks(DiskInodeOf(before, dir).size) * BLOCK_SZ ==>
      ByteAt(DiskInodeOf(before, dir), after, p) == ByteAt(DiskInodeOf(before, dir), before, p)
  {
    NodeIsSlot(fs, before, area, dirId);
    DiskInodePosInjective(fs, dirId, id);
    KeptAboveInodes(fs, area, before, after, DiskInodeOf(before, dir));
  }

  /**
   * Inode::create on the directory `dir`, the inode numbered `dirId`: when
   * an entry already has the name, nothing changes and there is no new
   * inode. Otherwise the lowest free inode number `id` becomes an empty
   * file, the directory gains the entry (`name`, `id`) at its end, and the
   * handle of the new inode is returned. The source panics when the inode
   * bitmap is full or the directory cannot grow; those are the
   * preconditions of the second case.
   */
  method Create(fs: EasyFileSystem, ghost area: nat, dir: Inode, ghost dirId: u32, name: seq<u8>, disk: Disk)
    returns (r: Option<Inode>, ghost id: u32)
    requires Fits(fs, area, disk.blocks) && dir == NodeOf(fs, dirId)
    requires dirId < Maximum(fs.inodeBitmap) && IsSet(disk.blocks, fs.inodeBitmap, dirId)
    requires Owned(fs, area, disk.blocks, DiskInodeOf(disk.blocks, dir)) && DiskInodeOf(disk.blocks, dir).IsDir()
    requires |name| <= NAME_FIELD
    requires Lookup(Entries(DiskInodeOf(disk.blocks, dir), disk.blocks), name).None? ==>
      && !Full(disk.blocks, fs.inodeBitmap) && EntryCount(DiskInodeOf(disk.blocks, dir)) < MAX_ENTRIES
      && Room(fs, area, disk.blocks, DiskInodeOf(disk.blocks, dir), NewDirSize(DiskInodeOf(disk.blocks, dir)))
    modifies disk
    ensures var found := Lookup(Entries(DiskInodeOf(old(disk.blocks), dir), old(disk.blocks)), name);
      found.Some? ==> r.None? && disk.blocks == old(disk.blocks)
    ensures var found := Lookup(Entries(DiskInodeOf(old(disk.blocks), dir), old(disk.blocks)), name);
      found.None? ==>
        && r == Some(NodeOf(fs, id))
        && Created(fs, area, old(disk.blocks), disk.blocks, dir, id)
        && Entries(DiskInodeOf(disk.blocks, dir), disk.blocks)
          == Entries(DiskInodeOf(old(disk.blocks), dir), old(disk.blocks)) + [NewEntry(name, id)]
  {
    var inode := DiskInodeOf(disk.blocks, dir);
    var op := FindInodeId(inode, name, disk.blocks);
    if op.Some? {
      return None, 0;
    }
    ghost var before := disk.blocks;
    var newId := NewFileInode(fs, area, disk);
    id := newId;
    DirKept(fs, area, dir, dirId, newId, before, disk.blocks);
    ghost var mid := disk.blocks;
    assert Entries(inode, mid) == Entries(inode, before) by {
      EntriesKept(inode, before, mid);
    }
    AppendEntry(fs, area, dir, NewEntry(name, newId), disk);
    CreatedAfter(fs, area, dir, newId, before, mid, disk.blocks);
    r := Some(NodeOf(fs, newId));
  }

  /** A directory whose bytes read the same in a second state lists the same entries there. */
  lemma EntriesKept(inode: DiskInode, b1: seq<Block>, b2: seq<Block>)
    requires inode.Shaped() && Sized(inode)
    requires forall p :: 0 <= p < DataBlocks(inode.size) * BLOCK_SZ ==> ByteAt(inode, b2, p) == ByteAt(inode, b1, p)
    ensures Entries(inode, b2) == Entries(inode, b1)
  {
    forall j | 0 <= j < EntryCount(inode)
      ensures EntryAt(inode, b2, j) == EntryAt(inode, b1, j)
    {
      forall k | 0 <= k < DIRENT_SZ
        ensures EntryBytesAt(inode, b2, j)[k] == EntryBytesAt(inode, b1, j)[k]
      {
        EntryBefore(j, EntryCount(inode), k);
      }
      assert EntryBytesAt(inode, b2, j) == EntryBytesAt(inode, b1, j);
    }
  }

  /**
   * What a successful create leaves, from `before` to `after`: `id` was the
   * lowest free inode number and is now the only newly marked one, its slot
   * holds an empty file, every other slot but the directory's is as it
   * was, and the directory is still an owned file of its kind, holding
   * the data blocks it gained.
   */
  ghost predicate Created(fs: EasyFileSystem, area: nat, before: seq<Block>, after: seq<Block>, dir: Inode, id: u32)
    requires Aligned(dir)
  {
    && id < Maximum(fs.inodeBitmap) && !IsSet(before, fs.inodeBitmap, id)
    && (forall bit :: 0 <= bit < id ==> IsSet(before, fs.inodeBitmap, bit))
    && (forall b: nat :: b < Maximum(fs.inodeBitmap) ==>
      IsSet(after, fs.inodeBitmap, b) == (b == id || IsSet(before, fs.inodeBitmap, b)))
    && IsSlot(fs, NodeOf(fs, id)) && DiskInodeOf(after, NodeOf(fs, id)) == Initialized(File)
    && (forall other :: IsSlot(fs, other) && other != dir && other != NodeOf(fs, id) ==>
      DiskInodeOf(after, other) == DiskInodeOf(before, other))
    && |after| == |before| && Fits(fs, area, after) && Owned(fs, area, after, DiskInodeOf(after, dir))
    && DiskInodeOf(after, dir).kind == DiskInodeOf(before, dir).kind
    && |Free(fs, area, after)| + TotalBlocks(DiskInodeOf(after, dir).size)
      == |Free(fs, area, before)| + TotalBlocks(DiskInodeOf(before, dir).size)
  }

  /** The inode bitmap after the directory grew: as NewFileInode left it. */
  lemma UpdatedKeepsInodeBits(fs: EasyFileSystem, area: nat, dir: Inode, mid: seq<Block>, after: seq<Block>, newSize: nat)
    requires IsSlot(fs, dir) && Valid(fs, mid) && Updated(fs, area, mid, after, dir, newSize)
    ensures forall b: nat :: b < Maximum(fs.inodeBitmap) ==> IsSet(after, fs.inodeBitmap, b) == IsSet(mid, fs.inodeBitmap, b)
  {
    var r := DiskInodeOf(after, dir);
    forall b: nat | b < Maximum(fs.inodeBitmap)
      ensures IsSet(after, fs.inodeBitmap, b) == IsSet(mid, fs.inodeBitmap, b)
    {
      HolderInside(fs.inodeBitmap, b);
      var h := Holder(fs.inodeBitmap, b);
      assert h !in Layout(r, after);
    }
  }

  /** The state create leaves is the one Created describes. */
  lemma CreatedAfter(fs: EasyFileSystem, area: nat, dir: Inode, id: u32, before: seq<Block>, mid: seq<Block>, after: seq<Block>)
    requires Fits(fs, area, before) && IsSlot(fs, dir) && dir != NodeOf(fs, id)
    requires id < Maximum(fs.inodeBitmap) && !IsSet(before, fs.inodeBitmap, id)
    requires forall bit :: 0 <= bit < id ==> IsSet(before, fs.inodeBitmap, bit)
    requires IsSlot(fs, NodeOf(fs, id)) && DiskInodeOf(mid, NodeOf(fs, id)) == Initialized(File)
    requires forall b: nat :: b < Maximum(fs.inodeBitmap) ==>
      IsSet(mid, fs.inodeBitmap, b) == (b == id || IsSet(before, fs.inodeBitmap, b))
    requires forall other :: IsSlot(fs, other) && other != NodeOf(fs, id) ==> DiskInodeOf(mid, other) == DiskInodeOf(before, other)
    requires SameFromDataBitmap(fs, before, mid) && Fits(fs, area, mid) && Free(fs, area, mid) == Free(fs, area, before)
    requires Sized(DiskInodeOf(before, dir)) && EntryCount(DiskInodeOf(before, dir)) < MAX_ENTRIES
    requires Updated(fs, area, mid, after, dir, NewDirSize(DiskInodeOf(before, dir)) as int)
    ensures Created(fs, area, before, after, dir, id)
  {
    UpdatedKeepsInodeBits(fs, area, dir, mid, after, NewDirSize(DiskInodeOf(before, dir)) as int);
  }

  /** A name find can match once stored: at most 27 bytes, none of them NUL. */
  predicate Findable(name: seq<u8>) {
    |name| <= NAME_LENGTH_LIMIT && forall i :: 0 <= i < |name| ==> name[i] != 0
  }

  /** Once create has appended (`name`, `id`) where the name was absent, find gives `id`. */
  lemma CreateThenFind(es: seq<DirEntry>, name: seq<u8>, id: u32)
    requires Findable(name) && Lookup(es, name).None?
    ensures Lookup(es + [NewEntry(name, id)], name) == Some(id)
  {
    NameAsWrittenRoundTrip(name, id);
    LookupAppend(es, NewEntry(name, id), name);
  }

  /** Creating `name` changes what find gives for no other name. */
  lemma CreateKeepsOthers(es: seq<DirEntry>, name: seq<u8>, id: u32, other: seq<u8>)
    requires Findable(name) && other != name
    ensures Lookup(es + [NewEntry(name, id)], other) == Lookup(es, other)
  {
    NameAsWrittenRoundTrip(name, id);
    LookupAppend(es, NewEntry(name, id), other);
  }

  /** After create, readdir lists the old names and then the new one. */
  lemma ReaddirAfterCreate(es: seq<DirEntry>, name: seq<u8>, id: u32)
    requires Findable(name)
    ensures Names(es + [NewEntry(name, id)]) == Names(es) + [name]
  {
    NameAsWrittenRoundTrip(name, id);
    var all := es + [NewEntry(name, id)];
    assert forall i :: 0 <= i < |es| ==> all[i] == es[i];
  }

  /**
   * A NUL-free name of the full 28-byte field: create stores it, yet find
   * still reports it missing, since DirEntry::name reads back only 27 bytes.
   * A second create of the same name therefore appends a duplicate entry.
   */
  lemma CreateLongNameMisses(es: seq<DirEntry>, name: seq<u8>, id: u32)
    requires |name| == NAME_FIELD && forall i :: 0 <= i < |name| ==> name[i] != 0
    requires Lookup(es, name).None?
    ensures Lookup(es + [NewEntry(name, id)], name).None?
    ensures Names(es + [NewEntry(name, id)]) == Names(es) + [name[..NAME_LENGTH_LIMIT]]
  {
    var e := NewEntry(name, id);
    assert e.name == name;
    assert NameAsWritten(e) == name[..NAME_LENGTH_LIMIT];
    LookupAppend(es, e, name);
    var all := es + [e];
    assert forall i :: 0 <= i < |es| ==> all[i] == es[i];
  }

  /**
   * create followed by find on the same directory and name: the handle
   * find returns is the one create returned. This is what the file
   * system's users rely on when they open a file they just created.
   */
  method CreateThenFindNode(fs: EasyFileSystem, ghost area: nat, dir: Inode, ghost dirId: u32, name: seq<u8>, disk: Disk)
    returns (created: Option<Inode>, found: Option<Inode>)
    requires Fits(fs, area, disk.blocks) && dir == NodeOf(fs, dirId)
    requires dirId < Maximum(fs.inodeBitmap) && IsSet(disk.blocks, fs.inodeBitmap, dirId)
    requires Owned(fs, area, disk.blocks, DiskInodeOf(disk.blocks, dir)) && DiskInodeOf(disk.blocks, dir).IsDir()
    requires Findable(name) && Lookup(Entries(DiskInodeOf(disk.blocks, dir), disk.blocks), name).None?
    requires !Full(disk.blocks, fs.inodeBitmap) && EntryCount(DiskInodeOf(disk.blocks, dir)) < MAX_ENTRIES
    requires Room(fs, area, disk.blocks, DiskInodeOf(disk.blocks, dir), NewDirSize(DiskInodeOf(disk.blocks, dir)))
    modifies disk
    ensures created.Some? && found == created
  {
    ghost var before := disk.blocks;
    ghost var id;
    created, id := Create(fs, area, dir, dirId, name, disk);
    CreateThenFind(Entries(DiskInodeOf(before, dir), before), name, id);
    found := Find(fs, dir, name, disk);
  }
}
