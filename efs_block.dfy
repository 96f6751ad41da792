/**
 * The block device of easy-fs as seen through its cache: a fixed number of
 * 512-byte blocks, plus the byte encodings the file system lays over them
 * (little-endian u32 fields, bitmap bits).
 */
module EfsBlock {
  import opened Words

  const BLOCK_SZ: nat := 512

  type Block = b: seq<u8> | |b| == BLOCK_SZ witness seq(512, _ => 0)

  function ZeroBlock(): (b: Block)
    ensures forall i :: 0 <= i < BLOCK_SZ ==> b[i] == 0
  {
    seq(BLOCK_SZ, _ => 0)
  }

  /**
   * The contents of block `id`. Blocks past the end of the device read as
   * zeros; the device's own behaviour there is not part of this model.
   */
  function Read(blocks: seq<Block>, id: int): Block {
    if 0 <= id < |blocks| then blocks[id] else ZeroBlock()
  }

  /** The logical disk: what every block holds once the cache is taken into account. */
  class Disk {
    var blocks: seq<Block>

    constructor (blocks: seq<Block>)
      ensures this.blocks == blocks
    {
      this.blocks := blocks;
    }
  }

  /** The little-endian u32 stored at byte `off`. */
  function U32At(b: seq<u8>, off: nat): u32
    requires off + 4 <= |b|
  {
    b[off] as int + 0x100 * b[off + 1] as int + 0x1_0000 * b[off + 2] as int + 0x100_0000 * b[off + 3] as int
  }

  /** The little-endian bytes of `v`. */
  function U32Bytes(v: u32): (r: seq<u8>)
    ensures |r| == 4
  {
    [v % 0x100, (v / 0x100) % 0x100, (v / 0x1_0000) % 0x100, v / 0x100_0000]
  }

  /** `b` with the u32 at byte `off` replaced by `v`. */
  function WithU32(b: seq<u8>, off: nat, v: u32): (r: seq<u8>)
    requires off + 4 <= |b|
    ensures |r| == |b|
    ensures forall i :: 0 <= i < |b| && (i < off || off + 4 <= i) ==> r[i] == b[i]
  {
    b[..off] + U32Bytes(v) + b[off + 4..]
  }

  /** Decoding the encoding of a u32 gives the value back. */
  lemma U32RoundTrip(v: u32)
    ensures U32At(U32Bytes(v), 0) == v
  {
    var q1 := v / 0x100;
    var q2 := q1 / 0x100;
    var q3 := q2 / 0x100;
    assert v == v % 0x100 + 0x100 * q1;
    assert q1 == q1 % 0x100 + 0x100 * q2;
    assert q2 == q2 % 0x100 + 0x100 * q3;
    assert q2 == v / 0x1_0000;
    assert q3 == v / 0x100_0000;
  }

  /** Writing a u32 field and reading it back gives the value; fields elsewhere keep theirs. */
  lemma U32AtWith(b: seq<u8>, off: nat, v: u32, off2: nat)
    requires off + 4 <= |b| && off2 + 4 <= |b|
    requires off2 == off || off2 + 4 <= off || off + 4 <= off2
    ensures U32At(WithU32(b, off, v), off2) == if off2 == off then v else U32At(b, off2)
  {
    var r := WithU32(b, off, v);
    if off2 == off {
      var e := U32Bytes(v);
      assert r[off] == e[0] && r[off + 1] == e[1] && r[off + 2] == e[2] && r[off + 3] == e[3];
      U32RoundTrip(v);
    } else {
      assert r[off2] == b[off2] && r[off2 + 1] == b[off2 + 1];
      assert r[off2 + 2] == b[off2 + 2] && r[off2 + 3] == b[off2 + 3];
    }
  }

  /** Number of 32-bit entries in an index block. */
  const ENTRIES: nat := 128

  /** Entry k of an index block (`[u32; 128]`). */
  function Entry(b: Block, k: nat): u32
    requires k < ENTRIES
  {
    U32At(b, 4 * k)
  }

  function SetEntry(b: Block, k: nat, v: u32): (r: Block)
    requires k < ENTRIES
    ensures Entry(r, k) == v
    ensures forall j :: 0 <= j < ENTRIES && j != k ==> Entry(r, j) == Entry(b, j)
  {
    var r := WithU32(b, 4 * k, v);
    U32AtWith(b, 4 * k, v, 4 * k);
    forall j | 0 <= j < ENTRIES && j != k
      ensures U32At(r, 4 * j) == U32At(b, 4 * j)
    {
      U32AtWith(b, 4 * k, v, 4 * j);
    }
    r
  }

  function Pow2(n: nat): (p: nat)
    ensures p >= 1
  {
    if n == 0 then 1 else 2 * Pow2(n - 1)
  }

  /** The low n bits of x, least significant first. */
  function BitsOf(x: nat, n: nat): (bs: seq<bool>)
    ensures |bs| == n
  {
    if n == 0 then [] else [x % 2 == 1] + BitsOf(x / 2, n - 1)
  }

  /** The number whose bits, least significant first, are `bs`. */
  function ValueOf(bs: seq<bool>): (x: nat)
    ensures x < Pow2(|bs|)
  {
    if bs == [] then 0 else (if bs[0] then 1 else 0) + 2 * ValueOf(bs[1..])
  }

  lemma {:induction false} BitsOfValue(bs: seq<bool>)
    ensures BitsOf(ValueOf(bs), |bs|) == bs
  {
    if bs != [] {
      BitsOfValue(bs[1..]);
      assert ValueOf(bs) / 2 == ValueOf(bs[1..]);
    }
  }

  lemma {:induction false} ValueOfBits(x: nat, n: nat)
    requires x < Pow2(n)
    ensures ValueOf(BitsOf(x, n)) == x
  {
    if n > 0 {
      ValueOfBits(x / 2, n - 1);
      assert BitsOf(x, n)[1..] == BitsOf(x / 2, n - 1);
    }
  }

  lemma Pow2Byte()
    ensures Pow2(8) == 0x100
  {
  }

  /** Bit i of a block, counted from bit 0 of byte 0; matches bit i%64 of u64 word i/64 on a little-endian machine. */
  predicate BitAt(b: Block, i: nat)
    requires i < BLOCK_SZ * 8
  {
    BitsOf(b[i / 8], 8)[i % 8]
  }

  /** `b` with bit i set to `v`; only byte i/8 changes. */
  function WithBit(b: Block, i: nat, v: bool): (r: Block)
    requires i < BLOCK_SZ * 8
    ensures BitAt(r, i) == v
    ensures forall k :: 0 <= k < BLOCK_SZ * 8 && k != i ==> BitAt(r, k) == BitAt(b, k)
    ensures forall j :: 0 <= j < BLOCK_SZ && j != i / 8 ==> r[j] == b[j]
  {
    var bits := BitsOf(b[i / 8], 8)[i % 8 := v];
    Pow2Byte();
    var r := b[i / 8 := ValueOf(bits)];
    BitsOfValue(bits);
    r
  }

  /** Setting a clear bit and clearing it again gives back the very same bytes. */
  lemma WithBitUndo(b: Block, i: nat)
    requires i < BLOCK_SZ * 8 && !BitAt(b, i)
    ensures WithBit(WithBit(b, i, true), i, false) == b
  {
    var x := b[i / 8];
    var bits := BitsOf(x, 8);
    var set1 := bits[i % 8 := true];
    Pow2Byte();
    BitsOfValue(set1);
    assert set1[i % 8 := false] == bits;
    ValueOfBits(x, 8);
  }
}
