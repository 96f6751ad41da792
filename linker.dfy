/**
 * The linker crate: the kernel layout read from the linker-script symbols,
 * its four regions in fixed order, their printed form, clearing `.bss`, and
 * the iterator over the application images the build appends to the kernel.
 *
 * Physical memory is an `array<u8>` indexed by address. The symbol addresses
 * themselves come from the linker and are parameters here.
 */
module Linker {
  import opened Words
  import opened Wrappers

  /** `KernelLayout`: the seven symbol addresses. */
  datatype KernelLayout = KernelLayout(text: usize, rodata: usize, data: usize, sbss: usize,
                                       ebss: usize, boot: usize, end: usize)

  /** `KernelLayout::INIT`: every field usize::MAX. */
  const INIT: KernelLayout := KernelLayout(USIZE_MAX, USIZE_MAX, USIZE_MAX, USIZE_MAX,
                                           USIZE_MAX, USIZE_MAX, USIZE_MAX)

  /** `start()`: the kernel's first address, `__start`. */
  function Start(l: KernelLayout): (r: usize)
    ensures r == l.text
  {
    l.text
  }

  /** `end()`: the address just past the kernel, `__end`. */
  function End(l: KernelLayout): (r: usize)
    ensures r == l.end
  {
    l.end
  }

  /** `len()`: `end - start`, saturating at zero. */
  function Len(l: KernelLayout): (r: usize)
    ensures Start(l) <= End(l) ==> Start(l) + r == End(l)
    ensures Start(l) > End(l) ==> r == 0
  {
    if l.end >= l.text then l.end - l.text else 0
  }

  /** The placeholder layout is empty. */
  lemma InitIsEmpty()
    ensures Start(INIT) == End(INIT) == USIZE_MAX && Len(INIT) == 0
  {
  }

  // ---------------------------------------------------------------------
  // Regions
  // ---------------------------------------------------------------------

  /** `KernelRegionTitle`. */
  datatype Title = Text | Rodata | Data | Boot

  /** `KernelRegion { title, range: start..end }`. */
  datatype Region = Region(title: Title, start: usize, end: usize)

  /** The regions `iter()` yields, in order. */
  function Regions(l: KernelLayout): (rs: seq<Region>)
    ensures |rs| == 4
    ensures rs[0].title == Text && rs[1].title == Rodata && rs[2].title == Data && rs[3].title == Boot
  {
    [Region(Text, l.text, l.rodata), Region(Rodata, l.rodata, l.data),
     Region(Data, l.data, l.boot), Region(Boot, l.boot, l.end)]
  }

  /**
   * The regions tile the kernel: they start at `start()`, each begins where
   * the previous one ends, the last ends at `end()`, and on an ordered layout
   * their sizes add up to `len()`.
   */
  lemma RegionsTile(l: KernelLayout)
    ensures Regions(l)[0].start == Start(l) && Regions(l)[3].end == End(l)
    ensures forall i :: 0 <= i < 3 ==> Regions(l)[i].end == Regions(l)[i + 1].start
    ensures l.text <= l.rodata <= l.data <= l.boot <= l.end ==>
      (Regions(l)[0].end - Regions(l)[0].start) + (Regions(l)[1].end - Regions(l)[1].start) +
      (Regions(l)[2].end - Regions(l)[2].start) + (Regions(l)[3].end - Regions(l)[3].start) == Len(l)
  {
  }

  /** `KernelRegionIterator`: the layout and how many regions have been yielded. */
  class KernelRegionIterator {
    const layout: KernelLayout
    var index: usize

    /** `layout.iter()`. */
    constructor (layout: KernelLayout)
      ensures this.layout == layout && index == 0
    {
      this.layout := layout;
      index := 0;
    }

    /** `next()`: the next region, or None once all four are out. */
    method Next() returns (r: Option<Region>)
      modifies this
      ensures old(index) < 4 ==> r == Some(Regions(layout)[old(index)]) && index == old(index) + 1
      ensures old(index) >= 4 ==> r == None && index == old(index)
    {
      if index == 0 {
        index := index + 1;
        r := Some(Region(Text, layout.text, layout.rodata));
      } else if index == 1 {
        index := index + 1;
        r := Some(Region(Rodata, layout.rodata, layout.data));
      } else if index == 2 {
        index := index + 1;
        r := Some(Region(Data, layout.data, layout.boot));
      } else if index == 3 {
        index := index + 1;
        r := Some(Region(Boot, layout.boot, layout.end));
      } else {
        r := None;
      }
    }
  }

  /** Running a fresh iterator to exhaustion yields exactly the four regions, in order. */
  method CollectRegions(l: KernelLayout) returns (rs: seq<Region>)
    ensures rs == Regions(l)
  {
    var it := new KernelRegionIterator(l);
    rs := [];
    var r := it.Next();
    while r.Some?
      invariant it.layout == l && it.index <= 4
      invariant r.Some? ==> 1 <= it.index && r.value == Regions(l)[it.index - 1]
      invariant r.Some? ==> rs == Regions(l)[..it.index - 1]
      invariant r.None? ==> it.index == 4 && rs == Regions(l)
      decreases 5 - it.index, r.Some?
    {
      rs := rs + [r.value];
      r := it.Next();
    }
  }

  // ---------------------------------------------------------------------
  // Display
  // ---------------------------------------------------------------------

  /** The section name printed for each title. */
  function Name(t: Title): seq<u8> {
    match t
    case Text => ['.' as u8, 't' as u8, 'e' as u8, 'x' as u8, 't' as u8]
    case Rodata => ['.' as u8, 'r' as u8, 'o' as u8, 'd' as u8, 'a' as u8, 't' as u8, 'a' as u8]
    case Data => ['.' as u8, 'd' as u8, 'a' as u8, 't' as u8, 'a' as u8]
    case Boot => ['.' as u8, 'b' as u8, 'o' as u8, 'o' as u8, 't' as u8]
  }

  /** One lower-case hexadecimal digit. */
  function HexDigit(d: nat): (c: u8)
    requires d < 16
  {
    if d < 10 then '0' as u8 + d else 'a' as u8 + (d - 10)
  }

  /** The value of a hexadecimal digit character. */
  function HexDigitValue(c: u8): nat {
    if '0' as u8 <= c <= '9' as u8 then c - '0' as u8
    else if 'a' as u8 <= c <= 'f' as u8 then c - 'a' as u8 + 10
    else 0
  }

  /** The hex digits of n in front of `acc`. */
  function HexFrom(n: nat, acc: seq<u8>): seq<u8>
    decreases n
  {
    if n == 0 then acc else HexFrom(n / 16, [HexDigit(n % 16)] + acc)
  }

  /** `{:x}`: lower-case hexadecimal without leading zeros, "0" for zero. */
  function LowerHex(n: nat): (r: seq<u8>)
    ensures |r| >= 1
  {
    if n == 0 then ['0' as u8] else HexFrom1(n)
  }

  /** `HexFrom(n, [])` for non-zero n, which has at least one digit. */
  function HexFrom1(n: nat): (r: seq<u8>)
    requires n > 0
    ensures r == HexFrom(n, []) && |r| >= 1
  {
    HexLength(n, []);
    HexFrom(n, [])
  }

  function Pow16(k: nat): (p: nat)
    ensures p >= 1
  {
    if k == 0 then 1 else 16 * Pow16(k - 1)
  }

  /** The value of a hexadecimal string, most significant digit first. */
  function HexValue(s: seq<u8>): nat
    decreases |s|
  {
    if s == [] then 0 else HexDigitValue(s[0]) * Pow16(|s| - 1) + HexValue(s[1..])
  }

  /** Each byte is a lower-case hexadecimal digit. */
  predicate AllHex(s: seq<u8>) {
    forall i :: 0 <= i < |s| ==> ('0' as u8 <= s[i] <= '9' as u8) || ('a' as u8 <= s[i] <= 'f' as u8)
  }

  lemma {:induction false} HexLength(n: nat, acc: seq<u8>)
    ensures n > 0 ==> |HexFrom(n, acc)| > |acc|
    ensures n == 0 ==> HexFrom(n, acc) == acc
    decreases n
  {
    if n > 0 {
      HexLength(n / 16, [HexDigit(n % 16)] + acc);
    }
  }

  lemma HexPlace(q: nat, r: nat, p: nat)
    ensures q * (16 * p) + r * p == (16 * q + r) * p
  {
  }

  /** Prepending the hex digits of n adds n times the place value of `acc`. */
  lemma {:induction false} HexFromValue(n: nat, acc: seq<u8>)
    requires AllHex(acc)
    ensures AllHex(HexFrom(n, acc))
    ensures HexValue(HexFrom(n, acc)) == n * Pow16(|acc|) + HexValue(acc)
    ensures n > 0 ==> HexFrom(n, acc)[0] != '0' as u8
    decreases n
  {
    HexLength(n, acc);
    if n > 0 {
      var q, r := n / 16, n % 16;
      var acc' := [HexDigit(r)] + acc;
      assert HexFrom(n, acc) == HexFrom(q, acc');
      assert acc'[1..] == acc;
      assert HexDigitValue(HexDigit(r)) == r;
      var p := Pow16(|acc|);
      assert HexValue(acc') == r * p + HexValue(acc);
      assert AllHex(acc');
      HexFromValue(q, acc');
      assert Pow16(|acc'|) == 16 * p;
      HexPlace(q, r, p);
      if q == 0 {
        assert HexFrom(q, acc') == acc';
      }
    }
  }

  /** `{:x}` can be read back: hex digits only, no leading zero except for 0, value n. */
  lemma HexRoundTrip(n: nat)
    ensures AllHex(LowerHex(n)) && HexValue(LowerHex(n)) == n
    ensures LowerHex(n)[0] == '0' as u8 <==> n == 0
  {
    if n > 0 {
      HexFromValue(n, []);
    }
  }

  const COLON_HEX: seq<u8> := [':' as u8, ' ' as u8, '0' as u8, 'x' as u8]
  const DOTS_HEX: seq<u8> := ['.' as u8, '.' as u8, '0' as u8, 'x' as u8]

  /** `Display for KernelRegion`: name ": 0x" start "..0x" end. */
  function Display(r: Region): seq<u8> {
    Name(r.title) + COLON_HEX + LowerHex(r.start) + DOTS_HEX + LowerHex(r.end)
  }

  /** The printed line names the region: different titles never print alike. */
  lemma DisplayNamesTitle(r1: Region, r2: Region)
    ensures Display(r1) == Display(r2) ==> r1.title == r2.title
  {
    if r1.title != r2.title {
      var n1, n2 := Name(r1.title), Name(r2.title);
      var d1, d2 := Display(r1), Display(r2);
      assert d1[..|n1|] == n1 && d2[..|n2|] == n2;
      assert d1[|n1|] == ':' as u8 && d2[|n2|] == ':' as u8;
      if |n1| == |n2| {
        assert d1[1] == n1[1] != n2[1] == d2[1];
      } else if |n1| < |n2| {
        assert d1[|n1|] != n2[|n1|] == d2[|n1|];
      } else {
        assert d2[|n2|] != n1[|n2|] == d1[|n2|];
      }
    }
  }

  // ---------------------------------------------------------------------
  // zero_bss
  // ---------------------------------------------------------------------

  /** The volatile byte loop: every byte of [lo, hi) becomes 0, and nothing else changes. */
  method ZeroFill(mem: array<u8>, lo: nat, hi: nat)
    requires lo < hi ==> hi <= mem.Length
    modifies mem
    ensures forall k :: 0 <= k < mem.Length && lo <= k < hi ==> mem[k] == 0
    ensures forall k :: 0 <= k < mem.Length && !(lo <= k < hi) ==> mem[k] == old(mem[k])
  {
    var p := lo;
    while p < hi
      invariant p == lo || lo <= p <= hi
      invariant forall k :: 0 <= k < mem.Length && lo <= k < p ==> mem[k] == 0
      invariant forall k :: 0 <= k < mem.Length && !(lo <= k < p) ==> mem[k] == old(mem[k])
      decreases hi - p
    {
      mem[p] := 0;
      p := p + 1;
    }
    forall k | 0 <= k < mem.Length && !(lo <= k < hi)
      ensures mem[k] == old(mem[k])
    {
      assert !(lo <= k < p);
    }
  }

  /** `zero_bss()`: every byte of [sbss, ebss) becomes 0, and nothing else changes. */
  method ZeroBss(l: KernelLayout, mem: array<u8>)
    requires l.sbss < l.ebss ==> l.ebss <= mem.Length
    modifies mem
    ensures forall k :: 0 <= k < mem.Length && l.sbss <= k < l.ebss ==> mem[k] == 0
    ensures forall k :: 0 <= k < mem.Length && !(l.sbss <= k < l.ebss) ==> mem[k] == old(mem[k])
  {
    ZeroFill(mem, l.sbss, l.ebss);
  }

  // ---------------------------------------------------------------------
  // AppIterator
  // ---------------------------------------------------------------------

  type u64 = usize

  /** The bytes each application slot spans when images are copied to fixed slots. */
  const APP_SLOT_SIZE: nat := 0x20_0000

  /**
   * `AppMeta { base, step, count, first }` with the address array that starts
   * at `first`: `count + 1` entries, the start of each image and the end of
   * the last.
   */
  datatype AppMeta = AppMeta(base: u64, step: u64, count: u64, addrs: seq<u64>)
  {
    /** The build writes `count + 1` ascending addresses. */
    predicate Valid() {
      |addrs| == count + 1 && forall i :: 0 <= i < count ==> addrs[i] <= addrs[i + 1]
    }
  }

  /** Where the i-th image is handed out and how long it is. */
  datatype Slice = Slice(addr: nat, len: nat)

  /** The i-th slice: at base + i*step when base is set, else where the image lies. */
  function AppSlice(meta: AppMeta, i: nat): (s: Slice)
    requires meta.Valid() && i < meta.count
    ensures s.len == meta.addrs[i + 1] - meta.addrs[i]
    ensures meta.base != 0 ==> s.addr == meta.base + i * meta.step
    ensures meta.base == 0 ==> s.addr == meta.addrs[i]
  {
    var size := meta.addrs[i + 1] - meta.addrs[i];
    if meta.base != 0 then Slice(meta.base + i * meta.step, size) else Slice(meta.addrs[i], size)
  }

  /** `AppIterator`: the metadata, how many images have been handed out, and memory. */
  class AppIterator {
    const meta: AppMeta
    var index: u64
    const mem: array<u8>

    /** `meta.iter()`. */
    constructor (meta: AppMeta, mem: array<u8>)
      ensures this.meta == meta && this.mem == mem && index == 0
    {
      this.meta := meta;
      this.mem := mem;
      index := 0;
    }

    /**
     * The memory `next()` touches for image i fits, and when images are
     * copied the source image and the destination slot do not overlap
     * (`copy_nonoverlapping`'s own requirement).
     */
    predicate Fits(i: nat)
      reads this
      requires meta.Valid() && i < meta.count
    {
      var pos, size := meta.addrs[i], meta.addrs[i + 1] - meta.addrs[i];
      pos + size <= mem.Length &&
      (meta.base != 0 ==>
         var dst := meta.base + i * meta.step;
         dst < USIZE_LIMIT && dst + size <= mem.Length && dst + APP_SLOT_SIZE <= mem.Length &&
         (pos + size <= dst || dst + size <= pos))
    }

    /**
     * `next()`: None once `count` images are out. Otherwise the next slice;
     * with a base address the image is first copied to its slot and the rest
     * of the 2 MiB slot is zeroed, and nothing else in memory changes.
     */
    method Next() returns (r: Option<Slice>)
      requires meta.Valid()
      requires index < meta.count ==> Fits(index)
      modifies this, mem
      ensures old(index) >= meta.count ==> r == None && index == old(index) && mem[..] == old(mem[..])
      ensures old(index) < meta.count ==> index == old(index) + 1 && r == Some(AppSlice(meta, old(index)))
      ensures old(index) < meta.count && meta.base == 0 ==> mem[..] == old(mem[..])
      ensures old(index) < meta.count && meta.base != 0 ==>
        Loaded(mem[..], old(mem[..]), meta.addrs[old(index)], r.value.addr, r.value.len)
    {
      if index >= meta.count {
        return None;
      }
      var i := index;
      index := index + 1;
      var pos := meta.addrs[i];
      var size := meta.addrs[i + 1] - meta.addrs[i];
      if meta.base != 0 {
        var dst := meta.base + i * meta.step;
        LoadImage(mem, pos, dst, size);
        r := Some(Slice(dst, size));
      } else {
        r := Some(Slice(pos, size));
      }
    }
  }

  /**
   * Memory `now` is memory `was` with the image bytes [pos, pos + size)
   * copied to `dst` and the rest of the 2 MiB slot at `dst` zeroed; every
   * byte outside the slot is as it was.
   */
  ghost predicate Loaded(now: seq<u8>, was: seq<u8>, pos: nat, dst: nat, size: nat) {
    && |now| == |was| && pos + size <= |was| && dst + size <= |now| && dst + APP_SLOT_SIZE <= |now|
    && (forall a :: dst <= a < dst + size ==> now[a] == was[a - dst + pos])
    && (forall a :: dst + size <= a < dst + APP_SLOT_SIZE ==> now[a] == 0)
    && (forall a :: 0 <= a < |now| && !(dst <= a < dst + size) && !(dst <= a < dst + APP_SLOT_SIZE) ==>
          now[a] == was[a])
  }

  /** Copying image bytes [pos, pos + size) to `dst` and zeroing the rest of the slot. */
  method LoadImage(mem: array<u8>, pos: nat, dst: nat, size: nat)
    requires pos + size <= mem.Length && dst + size <= mem.Length && dst + APP_SLOT_SIZE <= mem.Length
    requires pos + size <= dst || dst + size <= pos
    modifies mem
    ensures Loaded(mem[..], old(mem[..]), pos, dst, size)
  {
    CopyNonoverlapping(mem, pos, dst, size);
    ZeroFill(mem, dst + size, dst + APP_SLOT_SIZE);
  }

  /** `copy_nonoverlapping(src, dst, size)` within one memory. */
  method CopyNonoverlapping(mem: array<u8>, src: nat, dst: nat, size: nat)
    requires src + size <= mem.Length && dst + size <= mem.Length
    requires src + size <= dst || dst + size <= src
    modifies mem
    ensures forall a :: dst <= a < dst + size ==> mem[a] == old(mem[a - dst + src])
    ensures forall k :: 0 <= k < mem.Length && !(dst <= k < dst + size) ==> mem[k] == old(mem[k])
  {
    forall a | dst <= a < dst + size {
      mem[a] := mem[a - dst + src];
    }
  }

  /**
   * Where the images stay in place their slices follow one another; where
   * they are copied to slots at least 2 MiB apart, the slots of different
   * images never overlap.
   */
  lemma AppSlicesLayout(meta: AppMeta, i: nat, j: nat)
    requires meta.Valid() && i < j < meta.count
    ensures meta.base == 0 && j == i + 1 ==> AppSlice(meta, i).addr + AppSlice(meta, i).len == AppSlice(meta, j).addr
    ensures meta.base != 0 && meta.step >= APP_SLOT_SIZE ==>
      AppSlice(meta, i).addr + APP_SLOT_SIZE <= AppSlice(meta, j).addr
  {
    if meta.base != 0 && meta.step >= APP_SLOT_SIZE {
      assert j * meta.step == i * meta.step + (j - i) * meta.step;
      assert (j - i) * meta.step >= meta.step;
    }
  }
}
