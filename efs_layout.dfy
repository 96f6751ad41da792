/**
 * The fixed-size on-disk records of easy-fs other than the inode: the
 * super block in block 0 and the 32-byte directory entry.
 */
module EfsLayout {
  import opened Words
  import opened Wrappers
  import opened EfsBlock

  const EFS_MAGIC: u32 := 0x3b80_0001
  /** Longest name a directory entry is meant to hold, without its terminating NUL. */
  const NAME_LENGTH_LIMIT: nat := 27
  /** Bytes of the name field: the name and its terminating NUL. */
  const NAME_FIELD: nat := 28
  const DIRENT_SZ: nat := 32

  /** SuperBlock: the magic number and the size of every region, in blocks. */
  datatype SuperBlock = SuperBlock(
    magic: u32,
    totalBlocks: u32,
    inodeBitmapBlocks: u32,
    inodeAreaBlocks: u32,
    dataBitmapBlocks: u32,
    dataAreaBlocks: u32)
  {
    /** SuperBlock::is_valid. */
    predicate IsValid() {
      magic == EFS_MAGIC
    }
  }

  /** SuperBlock::initialize: every field replaced, the magic stamped. */
  function Initialize(totalBlocks: u32, inodeBitmapBlocks: u32, inodeAreaBlocks: u32,
                      dataBitmapBlocks: u32, dataAreaBlocks: u32): (sb: SuperBlock)
    ensures sb.IsValid()
    ensures sb.totalBlocks == totalBlocks && sb.inodeBitmapBlocks == inodeBitmapBlocks
    ensures sb.inodeAreaBlocks == inodeAreaBlocks && sb.dataBitmapBlocks == dataBitmapBlocks
    ensures sb.dataAreaBlocks == dataAreaBlocks
  {
    SuperBlock(EFS_MAGIC, totalBlocks, inodeBitmapBlocks, inodeAreaBlocks, dataBitmapBlocks, dataAreaBlocks)
  }

  /** The `#[repr(C)]` bytes of a super block: six little-endian u32 fields. */
  function SuperBytes(sb: SuperBlock): (r: seq<u8>)
    ensures |r| == 24
  {
    U32Bytes(sb.magic) + U32Bytes(sb.totalBlocks) + U32Bytes(sb.inodeBitmapBlocks)
      + U32Bytes(sb.inodeAreaBlocks) + U32Bytes(sb.dataBitmapBlocks) + U32Bytes(sb.dataAreaBlocks)
  }

  /** Block `b` with a super block stored at its start, as `modify(0, ..)` leaves it. */
  function WithSuper(b: Block, sb: SuperBlock): (r: Block)
    ensures r[24..] == b[24..]
  {
    SuperBytes(sb) + b[24..]
  }

  /** The super block seen through `read(0, ..)` on block `b`. */
  function SuperOf(b: Block): SuperBlock {
    SuperBlock(U32At(b, 0), U32At(b, 4), U32At(b, 8), U32At(b, 12), U32At(b, 16), U32At(b, 20))
  }

  /** A u32 field depends only on its own four bytes. */
  lemma U32AtSlice(s: seq<u8>, off: nat, v: u32)
    requires off + 4 <= |s| && s[off..off + 4] == U32Bytes(v)
    ensures U32At(s, off) == v
  {
    var e := U32Bytes(v);
    assert s[off] == e[0] && s[off + 1] == e[1] && s[off + 2] == e[2] && s[off + 3] == e[3];
    U32RoundTrip(v);
  }

  /** Storing a super block and reading it back gives every field back. */
  lemma SuperRoundTrip(b: Block, sb: SuperBlock)
    ensures SuperOf(WithSuper(b, sb)) == sb
  {
    var r := WithSuper(b, sb);
    assert r[0..4] == U32Bytes(sb.magic);
    assert r[4..8] == U32Bytes(sb.totalBlocks);
    assert r[8..12] == U32Bytes(sb.inodeBitmapBlocks);
    assert r[12..16] == U32Bytes(sb.inodeAreaBlocks);
    assert r[16..20] == U32Bytes(sb.dataBitmapBlocks);
    assert r[20..24] == U32Bytes(sb.dataAreaBlocks);
    U32AtSlice(r, 0, sb.magic);
    U32AtSlice(r, 4, sb.totalBlocks);
    U32AtSlice(r, 8, sb.inodeBitmapBlocks);
    U32AtSlice(r, 12, sb.inodeAreaBlocks);
    U32AtSlice(r, 16, sb.dataBitmapBlocks);
    U32AtSlice(r, 20, sb.dataAreaBlocks);
  }

  /** The 28-byte name field of a directory entry. */
  type NameField = s: seq<u8> | |s| == NAME_FIELD witness seq(28, _ => 0)

  /** DirEntry: a NUL-padded name and the inode it names. */
  datatype DirEntry = DirEntry(name: NameField, inodeNumber: u32)

  /** DirEntry::empty. */
  function EmptyEntry(): (e: DirEntry)
    ensures e.inodeNumber == 0 && forall i :: 0 <= i < NAME_FIELD ==> e.name[i] == 0
  {
    DirEntry(seq(NAME_FIELD, _ => 0), 0)
  }

  /**
   * DirEntry::new: the name's bytes copied to the front of a zeroed field.
   * A name longer than the field makes the copy panic, hence the requires.
   */
  function NewEntry(name: seq<u8>, inodeNumber: u32): (e: DirEntry)
    requires |name| <= NAME_FIELD
    ensures e.inodeNumber == inodeNumber
    ensures forall i :: 0 <= i < NAME_FIELD ==> e.name[i] == if i < |name| then name[i] else 0
  {
    DirEntry(name + seq(NAME_FIELD - |name|, _ => 0), inodeNumber)
  }

  /** Position of the first NUL byte of `s`, if any (`iter().position(|&c| c == 0)`). */
  function ZeroPos(s: seq<u8>): (r: Option<nat>)
    ensures r.Some? ==> r.value < |s| && s[r.value] == 0 && forall j :: 0 <= j < r.value ==> s[j] != 0
    ensures r.None? ==> forall j :: 0 <= j < |s| ==> s[j] != 0
  {
    if s == [] then None
    else if s[0] == 0 then Some(0)
    else match ZeroPos(s[1..]) {
      case None => None
      case Some(k) => Some(k + 1)
    }
  }

  /**
   * DirEntry::name as the source has it: the bytes before the first NUL,
   * or the first NAME_LENGTH_LIMIT (27) bytes when the field has no NUL.
   */
  function NameAsWritten(e: DirEntry): (r: seq<u8>)
    ensures |r| <= NAME_LENGTH_LIMIT && r == e.name[..|r|]
  {
    match ZeroPos(e.name) {
      case Some(k) => e.name[..k]
      case None => e.name[..NAME_LENGTH_LIMIT]
    }
  }

  /** A 28-byte name is accepted by DirEntry::new but read back one byte short. */
  lemma NameAsWrittenTruncates()
    ensures var name := seq(NAME_FIELD, _ => 0x61);
      NameAsWritten(NewEntry(name, 1)) == name[..NAME_LENGTH_LIMIT] && NameAsWritten(NewEntry(name, 1)) != name
  {
    var name: seq<u8> := seq(NAME_FIELD, _ => 0x61);
    var e := NewEntry(name, 1);
    assert e.name == name;
  }

  /** Names of at most 27 NUL-free bytes survive the as-written DirEntry::name. */
  lemma NameAsWrittenRoundTrip(name: seq<u8>, inodeNumber: u32)
    requires |name| <= NAME_LENGTH_LIMIT && forall i :: 0 <= i < |name| ==> name[i] != 0
    ensures NameAsWritten(NewEntry(name, inodeNumber)) == name
  {
    var e := NewEntry(name, inodeNumber);
    assert e.name[|name|] == 0;
    assert e.name[..|name|] == name;
  }

  /**
   * DirEntry::name with the no-NUL case reading the whole 28-byte field: the
   * longest NUL-free prefix of the field.
   */
  function Name(e: DirEntry): (r: seq<u8>)
    ensures |r| <= NAME_FIELD && r == e.name[..|r|]
    ensures forall i :: 0 <= i < |r| ==> r[i] != 0
    ensures |r| < NAME_FIELD ==> e.name[|r|] == 0
  {
    match ZeroPos(e.name) {
      case Some(k) => e.name[..k]
      case None => e.name
    }
  }

  /** Every name the field can hold (NUL-free, at most 28 bytes) comes back from Name. */
  lemma NameRoundTrip(name: seq<u8>, inodeNumber: u32)
    requires |name| <= NAME_FIELD && forall i :: 0 <= i < |name| ==> name[i] != 0
    ensures Name(NewEntry(name, inodeNumber)) == name
    ensures NewEntry(name, inodeNumber).inodeNumber == inodeNumber
  {
    var e := NewEntry(name, inodeNumber);
    var r := Name(e);
    assert forall i :: 0 <= i < |name| ==> e.name[i] != 0;
    assert |name| < NAME_FIELD ==> e.name[|name|] == 0;
    assert e.name[..|name|] == name;
  }

  /** DirEntry::as_bytes: the name field followed by the little-endian inode number. */
  function EntryBytes(e: DirEntry): (r: seq<u8>)
    ensures |r| == DIRENT_SZ
  {
    e.name + U32Bytes(e.inodeNumber)
  }

  /** The entry whose bytes `as_bytes_mut` was filled with. */
  function EntryOf(b: seq<u8>): DirEntry
    requires |b| == DIRENT_SZ
  {
    DirEntry(b[..NAME_FIELD], U32At(b, NAME_FIELD))
  }

  /** Writing an entry's bytes and reading them back gives the entry. */
  lemma EntryRoundTrip(e: DirEntry)
    ensures EntryOf(EntryBytes(e)) == e
  {
    var b := EntryBytes(e);
    assert b[..NAME_FIELD] == e.name;
    assert b[NAME_FIELD..NAME_FIELD + 4] == U32Bytes(e.inodeNumber);
    U32AtSlice(b, NAME_FIELD, e.inodeNumber);
  }
}
