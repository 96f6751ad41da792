/**
 * The ELF loader the chapter kernels share (`load_elf` in ch4 and ch5,
 * `from_elf` in ch6, `load_user_space_from_elf` in ch8): the header check,
 * the first pass that unions the R/W/X permissions of every PT_LOAD segment
 * over the pages it covers, and the second pass that maps each page once and
 * copies every segment's file bytes into it.
 *
 * The address space is seen as the user image it ends up holding: a map from
 * page number to the page's flags and its 4096 bytes. Parsing the file
 * (`ElfFile::new`) is done by a crate this model does not include; the loader
 * starts from its result.
 */
module ElfLoad {
  import opened Words
  import opened Wrappers
  import opened KernelVm

  /** `e_type` of an executable file. */
  const ET_EXEC: u16 := 2
  /** `e_machine` of RISC-V. */
  const EM_RISCV: u16 := 243

  /** `ph.get_type()`: a load segment, another type, or a type that does not parse. */
  datatype SegmentType = LoadType | OtherType | Unparsable

  /** A program header with the flag bits the loader reads. */
  datatype Segment = Segment(kind: SegmentType, vaddr: usize, offset: usize, filesz: usize, memsz: usize,
                             r: bool, w: bool, x: bool)

  /** A parsed ELF file. */
  datatype Elf = Elf(eType: u16, machine: u16, entry: usize, segments: seq<Segment>)

  /** The header check: an executable for RISC-V. */
  predicate Accepted(elf: Elf) {
    elf.eType == ET_EXEC && elf.machine == EM_RISCV
  }

  /** Some program header's type does not parse, so `get_type().ok()?` gives up. */
  predicate HasUnparsable(segs: seq<Segment>) {
    exists i :: 0 <= i < |segs| && segs[i].kind == Unparsable
  }

  /** `vaddr >> 12`. */
  function VpnStart(s: Segment): nat {
    s.vaddr / PAGE_SIZE
  }

  /**
   * `(vaddr + memsz + PAGE_SIZE - 1) >> 12`, with the sum taken in usize as a
   * release build does: one past the last page the segment reaches, unless
   * the sum passes usize::MAX and wraps.
   */
  function VpnEnd(s: Segment): nat {
    ((s.vaddr + s.memsz + PAGE_SIZE - 1) % USIZE_LIMIT) / PAGE_SIZE
  }

  /**
   * Without the wrap, pages VpnStart .. VpnEnd-1 are exactly the pages that
   * meet the segment's memory range [vaddr, vaddr + memsz).
   */
  lemma VpnRange(s: Segment, v: nat)
    requires s.vaddr + s.memsz + PAGE_SIZE - 1 < USIZE_LIMIT
    ensures VpnStart(s) <= v < VpnEnd(s) <==> v * PAGE_SIZE < s.vaddr + s.memsz && s.vaddr < (v + 1) * PAGE_SIZE
  {
    assert VpnEnd(s) == (s.vaddr + s.memsz + PAGE_SIZE - 1) / PAGE_SIZE;
  }

  /**
   * With the wrap, the range shrinks to at most the segment's first page,
   * whatever memsz says.
   */
  lemma VpnRangeWraps(s: Segment)
    requires s.vaddr + s.memsz + PAGE_SIZE - 1 >= USIZE_LIMIT
    ensures VpnEnd(s) <= VpnStart(s) + 1
  {
    var t := s.vaddr + s.memsz + PAGE_SIZE - 1 - USIZE_LIMIT;
    if t < USIZE_LIMIT {
      assert (t + USIZE_LIMIT) % USIZE_LIMIT == t;
    } else {
      assert (t - USIZE_LIMIT + 2 * USIZE_LIMIT) % USIZE_LIMIT == t - USIZE_LIMIT;
    }
  }

  /** A page-aligned segment whose size wraps the sum covers no page at all. */
  lemma WrappedSegmentEmpty()
    ensures var s := Segment(LoadType, PAGE_SIZE, 0, 0, USIZE_MAX, true, true, false);
      VpnStart(s) == 1 && VpnEnd(s) == 1 && forall v :: !Covers(s, v, false)
  {
  }

  /**
   * Whether both passes visit page v for segment s. `skipEmpty` is the
   * `memsz == 0` skip of ch6 and ch8, which ch4 and ch5 lack.
   */
  predicate Covers(s: Segment, v: nat, skipEmpty: bool) {
    s.kind == LoadType && !(skipEmpty && s.memsz == 0) && VpnStart(s) <= v < VpnEnd(s)
  }

  /** Some of the first n segments covers page v. */
  predicate AnyCovers(segs: seq<Segment>, n: nat, v: nat, skipEmpty: bool)
    requires n <= |segs|
  {
    n > 0 && (Covers(segs[n - 1], v, skipEmpty) || AnyCovers(segs, n - 1, v, skipEmpty))
  }

  /** The permission triple kept per page in the first pass. */
  datatype Rwx = Rwx(r: bool, w: bool, x: bool)
  const NO_RWX: Rwx := Rwx(false, false, false)

  /** The union of the permissions of the first n segments that cover page v. */
  function Union(segs: seq<Segment>, n: nat, v: nat, skipEmpty: bool): Rwx
    requires n <= |segs|
  {
    if n == 0 then NO_RWX
    else
      var u := Union(segs, n - 1, v, skipEmpty);
      var s := segs[n - 1];
      if Covers(s, v, skipEmpty) then Rwx(u.r || s.r, u.w || s.w, u.x || s.x) else u
  }

  /** Each bit of the union is set exactly when some covering segment has it. */
  lemma {:induction false} UnionIsAny(segs: seq<Segment>, n: nat, v: nat, skipEmpty: bool)
    requires n <= |segs|
    ensures Union(segs, n, v, skipEmpty).w <==> exists j :: 0 <= j < n && Covers(segs[j], v, skipEmpty) && segs[j].w
    ensures Union(segs, n, v, skipEmpty).x <==> exists j :: 0 <= j < n && Covers(segs[j], v, skipEmpty) && segs[j].x
    ensures Union(segs, n, v, skipEmpty).r <==> exists j :: 0 <= j < n && Covers(segs[j], v, skipEmpty) && segs[j].r
    ensures AnyCovers(segs, n, v, skipEmpty) <==> exists j :: 0 <= j < n && Covers(segs[j], v, skipEmpty)
  {
    if n > 0 {
      UnionIsAny(segs, n - 1, v, skipEmpty);
    }
  }

  /** A page no segment covers has nothing in its union. */
  lemma {:induction false} UnionOutside(segs: seq<Segment>, n: nat, v: nat, skipEmpty: bool)
    requires n <= |segs| && !AnyCovers(segs, n, v, skipEmpty)
    ensures Union(segs, n, v, skipEmpty) == NO_RWX
  {
    if n > 0 {
      UnionOutside(segs, n - 1, v, skipEmpty);
    }
  }

  /** `m` is the first pass's table after the first n segments: their covered pages, with the union of permissions. */
  ghost predicate TableFor(segs: seq<Segment>, n: nat, skipEmpty: bool, m: map<nat, Rwx>)
    requires n <= |segs|
  {
    (forall v :: v in m <==> AnyCovers(segs, n, v, skipEmpty)) &&
    (forall v :: v in m ==> m[v] == Union(segs, n, v, skipEmpty))
  }

  /**
   * The first pass: for every page a load segment covers, the union of the
   * covering segments' permissions. None when a program header's type does
   * not parse.
   */
  method CollectPageInfo(segs: seq<Segment>, skipEmpty: bool) returns (info: Option<map<nat, Rwx>>)
    ensures info.None? <==> HasUnparsable(segs)
    ensures info.Some? ==> TableFor(segs, |segs|, skipEmpty, info.value)
  {
    var m: map<nat, Rwx> := map[];
    var i := 0;
    while i < |segs|
      invariant 0 <= i <= |segs|
      invariant forall j :: 0 <= j < i ==> segs[j].kind != Unparsable
      invariant TableFor(segs, i, skipEmpty, m)
    {
      var s := segs[i];
      if s.kind == Unparsable {
        return None;
      }
      if s.kind == LoadType && !(skipEmpty && s.memsz == 0) {
        m := AddSegment(segs, i, skipEmpty, m);
      } else {
        assert forall v :: !Covers(s, v, skipEmpty);
      }
      i := i + 1;
    }
    return Some(m);
  }

  /** The first pass for one load segment segs[i]: its permissions join every page it covers. */
  method AddSegment(segs: seq<Segment>, i: nat, skipEmpty: bool, m0: map<nat, Rwx>) returns (m: map<nat, Rwx>)
    requires i < |segs| && segs[i].kind == LoadType && !(skipEmpty && segs[i].memsz == 0)
    requires TableFor(segs, i, skipEmpty, m0)
    ensures TableFor(segs, i + 1, skipEmpty, m)
  {
    var s := segs[i];
    m := m0;
    var v := VpnStart(s);
    while v < VpnEnd(s)
      invariant VpnStart(s) <= v && (v <= VpnEnd(s) || v == VpnStart(s))
      invariant Joined(segs, i, skipEmpty, v, m)
      decreases VpnEnd(s) - v
    {
      var e := if v in m then m[v] else NO_RWX;
      JoinPage(segs, i, skipEmpty, v, m);
      m := m[v := Rwx(e.r || s.r, e.w || s.w, e.x || s.x)];
      v := v + 1;
    }
    JoinedAll(segs, i, skipEmpty, v, m);
  }

  /**
   * The table while segment segs[i] is joined: pages VpnStart .. v-1 of it
   * carry the union over the first i + 1 segments, the others the union over
   * the first i.
   */
  ghost predicate Joined(segs: seq<Segment>, i: nat, skipEmpty: bool, v: nat, m: map<nat, Rwx>)
    requires i < |segs|
  {
    var s := segs[i];
    && (forall w: nat :: w in m <==> AnyCovers(segs, i, w, skipEmpty) || VpnStart(s) <= w < v)
    && (forall w: nat :: w in m ==>
         m[w] == if VpnStart(s) <= w < v then Union(segs, i + 1, w, skipEmpty) else Union(segs, i, w, skipEmpty))
  }

  /** Joining page v of segs[i] into the table keeps it Joined, one page further on. */
  lemma JoinPage(segs: seq<Segment>, i: nat, skipEmpty: bool, v: nat, m: map<nat, Rwx>)
    requires i < |segs| && Covers(segs[i], v, skipEmpty) && Joined(segs, i, skipEmpty, v, m)
    ensures var s, e := segs[i], if v in m then m[v] else NO_RWX;
      Joined(segs, i, skipEmpty, v + 1, m[v := Rwx(e.r || s.r, e.w || s.w, e.x || s.x)])
  {
    if v !in m {
      UnionOutside(segs, i, v, skipEmpty);
    }
  }

  /** Once every page of segs[i] is joined, the table is the first pass's table over i + 1 segments. */
  lemma JoinedAll(segs: seq<Segment>, i: nat, skipEmpty: bool, v: nat, m: map<nat, Rwx>)
    requires i < |segs| && segs[i].kind == LoadType && !(skipEmpty && segs[i].memsz == 0)
    requires VpnEnd(segs[i]) <= v && (v <= VpnEnd(segs[i]) || v == VpnStart(segs[i]))
    requires Joined(segs, i, skipEmpty, v, m)
    ensures TableFor(segs, i + 1, skipEmpty, m)
  {
    assert forall w: nat :: VpnStart(segs[i]) <= w < v <==> Covers(segs[i], w, skipEmpty);
  }

  /**
   * The flags a page is mapped with: W and X follow the union, and V, R
   * and U are always set (the union's R bit is not consulted).
   */
  function ChooseFlags(u: Rwx): (f: Flags)
    ensures V in f && R in f && U in f
    ensures W in f <==> u.w
    ensures X in f <==> u.x
    ensures G !in f && A !in f && D !in f
  {
    if u.w && u.x then {V, R, W, X, U}
    else if u.x then {V, R, X, U}
    else if u.w then {V, R, W, U}
    else {V, R, U}
  }

  /** The flags page v ends up with: those chosen from the union over all segments. */
  function PageFlags(segs: seq<Segment>, v: nat, skipEmpty: bool): Flags {
    ChooseFlags(Union(segs, |segs|, v, skipEmpty))
  }

  /** Every load segment's file range lies inside the file (otherwise the slice panics). */
  predicate FileFits(segs: seq<Segment>, data: seq<u8>) {
    forall i :: 0 <= i < |segs| && segs[i].kind == LoadType ==> segs[i].offset + segs[i].filesz <= |data|
  }

  /** `page_offset`: where in page v the segment's bytes start. */
  function InPage(s: Segment, v: nat): nat {
    if s.vaddr > v * PAGE_SIZE then s.vaddr - v * PAGE_SIZE else 0
  }

  /** `data_start`: which byte of the segment lands at that point. */
  function SegOff(s: Segment, v: nat): nat {
    if v * PAGE_SIZE > s.vaddr then v * PAGE_SIZE - s.vaddr else 0
  }

  /** `copy_len`: how many file bytes go to page v; 0 once the file bytes are used up. */
  function CopyLen(s: Segment, v: nat): nat
    requires VpnStart(s) <= v
  {
    if SegOff(s, v) < s.filesz then Min(s.filesz - SegOff(s, v), PAGE_SIZE - InPage(s, v)) else 0
  }

  /**
   * The copy for page v lands where it belongs: the page address plus the
   * in-page offset is the segment address plus the segment offset, and the
   * bytes fit both the page and the segment's file range.
   */
  lemma PageCopyAligned(s: Segment, v: nat)
    requires VpnStart(s) <= v
    ensures v * PAGE_SIZE + InPage(s, v) == s.vaddr + SegOff(s, v)
    ensures InPage(s, v) + CopyLen(s, v) <= PAGE_SIZE
    ensures CopyLen(s, v) > 0 ==> SegOff(s, v) + CopyLen(s, v) <= s.filesz
    ensures InPage(s, v) > 0 ==> v == VpnStart(s)
  {
  }

  /** The contents of one page. */
  type PageBytes = b: seq<u8> | |b| == PAGE_SIZE witness seq(4096, _ => 0 as u8)

  /** A freshly mapped page before anything is copied into it. */
  function ZeroPage(): PageBytes {
    seq(4096, _ => 0 as u8)
  }

  /** A mapped user page. */
  datatype UserPage = UserPage(flags: Flags, bytes: PageBytes)

  /** The user part of an address space: page number to page. */
  type Image = map<nat, UserPage>

  /** The page at v, if it is mapped. */
  function Lookup(img: Image, v: nat): (r: Option<UserPage>)
    ensures r.Some? <==> v in img
    ensures r.Some? ==> r.value == img[v]
  {
    if v in img then Some(img[v]) else None
  }

  /**
   * `copy_from_slice`, one byte at a time: page b with the n bytes of data
   * from position `from` written at offset `at`.
   */
  function CopyInto(b: PageBytes, at: nat, data: seq<u8>, from: nat, n: nat): PageBytes
    requires at + n <= PAGE_SIZE && (n == 0 || from + n <= |data|)
    decreases n
  {
    if n == 0 then b else CopyInto(b, at, data, from, n - 1)[at + n - 1 := data[from + n - 1]]
  }

  /** Byte i of the copy comes from data inside the written range and from b outside it. */
  lemma {:induction false} CopyIntoAt(b: PageBytes, at: nat, data: seq<u8>, from: nat, n: nat, i: nat)
    requires at + n <= PAGE_SIZE && (n == 0 || from + n <= |data|) && i < PAGE_SIZE
    ensures CopyInto(b, at, data, from, n)[i] == if at <= i < at + n then data[from + (i - at)] else b[i]
    decreases n
  {
    if n > 0 {
      CopyIntoAt(b, at, data, from, n - 1, i);
    }
  }

  /**
   * Page v after segment s: a page already mapped (`prev`) keeps its flags
   * and gets the segment's bytes written over it; a new one is mapped with
   * `flags` and holds zeros around the segment's bytes (`space.map(.., data,
   * page_offset, flags)`).
   */
  function NewPage(prev: Option<UserPage>, s: Segment, v: nat, data: seq<u8>, flags: Flags): UserPage
    requires VpnStart(s) <= v && s.offset + s.filesz <= |data|
  {
    PageCopyAligned(s, v);
    var base := if prev.Some? then prev.value else UserPage(flags, ZeroPage());
    base.(bytes := CopyInto(base.bytes, InPage(s, v), data, s.offset + SegOff(s, v), CopyLen(s, v)))
  }

  /** The byte at user address a. */
  function ByteAt(img: Image, a: nat): u8
    requires a / PAGE_SIZE in img
  {
    img[a / PAGE_SIZE].bytes[a % PAGE_SIZE]
  }

  /** Address a holds file byte `a - vaddr` of segment s, on a page both passes visit. */
  predicate InFile(s: Segment, a: nat, skipEmpty: bool) {
    Covers(s, a / PAGE_SIZE, skipEmpty) && s.vaddr <= a < s.vaddr + s.filesz
  }

  /**
   * Where segment s puts the bytes of page v: its file bytes on that page,
   * the previous contents elsewhere, zero on a new page.
   */
  lemma {:induction false} NewPageByte(prev: Option<UserPage>, s: Segment, v: nat, data: seq<u8>, flags: Flags, a: nat, skipEmpty: bool)
    requires Covers(s, v, skipEmpty) && s.offset + s.filesz <= |data|
    requires a / PAGE_SIZE == v
    ensures NewPage(prev, s, v, data, flags).bytes[a % PAGE_SIZE] ==
      if InFile(s, a, skipEmpty) then data[s.offset + (a - s.vaddr)]
      else if prev.Some? then prev.value.bytes[a % PAGE_SIZE] else 0
  {
    var k := a % PAGE_SIZE;
    assert a == v * PAGE_SIZE + k;
    PageCopyAligned(s, v);
    var lo, n := InPage(s, v), CopyLen(s, v);
    var base := if prev.Some? then prev.value.bytes else ZeroPage();
    CopyIntoAt(base, lo, data, s.offset + SegOff(s, v), n, k);
    assert lo <= k < lo + n <==> InFile(s, a, skipEmpty);
    if lo <= k < lo + n {
      assert s.offset + SegOff(s, v) + (k - lo) == s.offset + (a - s.vaddr);
    }
  }

  /**
   * The image after the second pass has handled pages VpnStart(s) .. v-1 of
   * segment s, one page after the other, starting from img; a new page gets
   * the flags of the first pass.
   */
  function SegPages(img: Image, s: Segment, v: nat, data: seq<u8>, segs: seq<Segment>, skipEmpty: bool): Image
    requires s.offset + s.filesz <= |data|
    decreases v
  {
    if v <= VpnStart(s) then img
    else SegPages(img, s, v - 1, data, segs, skipEmpty)[v - 1 := NewPage(Lookup(img, v - 1), s, v - 1, data, PageFlags(segs, v - 1, skipEmpty))]
  }

  /** Pages VpnStart(s) .. v-1 are written from img's pages; the others are img's. */
  lemma {:induction false} SegPagesAt(img: Image, s: Segment, v: nat, data: seq<u8>, segs: seq<Segment>, skipEmpty: bool, w: nat)
    requires s.offset + s.filesz <= |data|
    ensures w in SegPages(img, s, v, data, segs, skipEmpty) <==> w in img || VpnStart(s) <= w < v
    ensures VpnStart(s) <= w < v ==>
      SegPages(img, s, v, data, segs, skipEmpty)[w] == NewPage(Lookup(img, w), s, w, data, PageFlags(segs, w, skipEmpty))
    ensures !(VpnStart(s) <= w < v) && w in img ==> SegPages(img, s, v, data, segs, skipEmpty)[w] == img[w]
    decreases v
  {
    if v > VpnStart(s) {
      SegPagesAt(img, s, v - 1, data, segs, skipEmpty, w);
    }
  }

  /** The second pass for one segment: all the pages it covers, or nothing. */
  function SegStep(img: Image, s: Segment, data: seq<u8>, segs: seq<Segment>, skipEmpty: bool): Image
    requires s.kind == LoadType ==> s.offset + s.filesz <= |data|
  {
    if s.kind == LoadType && !(skipEmpty && s.memsz == 0) then SegPages(img, s, VpnEnd(s), data, segs, skipEmpty)
    else img
  }

  /** SegStep maps exactly the pages s covers, and leaves the others as they were. */
  lemma SegStepFrame(img: Image, s: Segment, data: seq<u8>, segs: seq<Segment>, skipEmpty: bool, w: nat)
    requires s.kind == LoadType ==> s.offset + s.filesz <= |data|
    ensures w in SegStep(img, s, data, segs, skipEmpty) <==> w in img || Covers(s, w, skipEmpty)
    ensures !Covers(s, w, skipEmpty) && w in img ==> SegStep(img, s, data, segs, skipEmpty)[w] == img[w]
    ensures Covers(s, w, skipEmpty) ==>
      SegStep(img, s, data, segs, skipEmpty)[w] == NewPage(Lookup(img, w), s, w, data, PageFlags(segs, w, skipEmpty))
  {
    if s.kind == LoadType && !(skipEmpty && s.memsz == 0) {
      SegPagesAt(img, s, VpnEnd(s), data, segs, skipEmpty, w);
    }
  }

  /** The image after the second pass has handled the first n segments. */
  function Build(segs: seq<Segment>, n: nat, data: seq<u8>, skipEmpty: bool): Image
    requires n <= |segs| && FileFits(segs, data)
  {
    if n == 0 then map[]
    else SegStep(Build(segs, n - 1, data, skipEmpty), segs[n - 1], data, segs, skipEmpty)
  }

  /**
   * The reference image: address a holds the file byte of the last segment
   * whose file range contains it, and zero when there is none.
   */
  function Expected(segs: seq<Segment>, n: nat, a: nat, data: seq<u8>, skipEmpty: bool): u8
    requires n <= |segs| && FileFits(segs, data)
  {
    if n == 0 then 0
    else if InFile(segs[n - 1], a, skipEmpty) then
      assert segs[n - 1].kind == LoadType;
      data[segs[n - 1].offset + (a - segs[n - 1].vaddr)]
    else Expected(segs, n - 1, a, data, skipEmpty)
  }

  /** An address on a page no segment covers holds zero in the reference image. */
  lemma {:induction false} ExpectedOutside(segs: seq<Segment>, n: nat, a: nat, data: seq<u8>, skipEmpty: bool)
    requires n <= |segs| && FileFits(segs, data) && !AnyCovers(segs, n, a / PAGE_SIZE, skipEmpty)
    ensures Expected(segs, n, a, data, skipEmpty) == 0
  {
    if n > 0 {
      ExpectedOutside(segs, n - 1, a, data, skipEmpty);
    }
  }

  /** The pages the second pass maps are exactly the covered ones. */
  lemma {:induction false} BuildKeys(segs: seq<Segment>, n: nat, data: seq<u8>, skipEmpty: bool, v: nat)
    requires n <= |segs| && FileFits(segs, data)
    ensures v in Build(segs, n, data, skipEmpty) <==> AnyCovers(segs, n, v, skipEmpty)
  {
    if n > 0 {
      BuildKeys(segs, n - 1, data, skipEmpty, v);
      SegStepFrame(Build(segs, n - 1, data, skipEmpty), segs[n - 1], data, segs, skipEmpty, v);
    }
  }

  /** Every mapped page carries the flags chosen from the union over all segments. */
  lemma {:induction false} BuildFlags(segs: seq<Segment>, n: nat, data: seq<u8>, skipEmpty: bool, v: nat)
    requires n <= |segs| && FileFits(segs, data) && v in Build(segs, n, data, skipEmpty)
    ensures Build(segs, n, data, skipEmpty)[v].flags == PageFlags(segs, v, skipEmpty)
  {
    var prev := Build(segs, n - 1, data, skipEmpty);
    SegStepFrame(prev, segs[n - 1], data, segs, skipEmpty, v);
    if v in prev {
      BuildFlags(segs, n - 1, data, skipEmpty, v);
    }
  }

  /**
   * A byte after one segment's step: the segment's file byte where its file
   * range reaches, else the byte before the step, else zero on a new page.
   */
  lemma StepByte(img: Image, s: Segment, data: seq<u8>, segs: seq<Segment>, skipEmpty: bool, a: nat)
    requires s.kind == LoadType ==> s.offset + s.filesz <= |data|
    requires a / PAGE_SIZE in SegStep(img, s, data, segs, skipEmpty)
    ensures InFile(s, a, skipEmpty) ==> ByteAt(SegStep(img, s, data, segs, skipEmpty), a) == data[s.offset + (a - s.vaddr)]
    ensures !InFile(s, a, skipEmpty) && a / PAGE_SIZE in img ==>
      ByteAt(SegStep(img, s, data, segs, skipEmpty), a) == ByteAt(img, a)
    ensures !InFile(s, a, skipEmpty) && a / PAGE_SIZE !in img ==> ByteAt(SegStep(img, s, data, segs, skipEmpty), a) == 0
  {
    var p := a / PAGE_SIZE;
    SegStepFrame(img, s, data, segs, skipEmpty, p);
    if Covers(s, p, skipEmpty) {
      NewPageByte(Lookup(img, p), s, p, data, PageFlags(segs, p, skipEmpty), a, skipEmpty);
    }
  }

  /** Every byte of the loaded image is the reference image's byte. */
  lemma {:induction false} BuildBytes(segs: seq<Segment>, n: nat, data: seq<u8>, skipEmpty: bool, a: nat)
    requires n <= |segs| && FileFits(segs, data) && a / PAGE_SIZE in Build(segs, n, data, skipEmpty)
    ensures ByteAt(Build(segs, n, data, skipEmpty), a) == Expected(segs, n, a, data, skipEmpty)
  {
    var prev := Build(segs, n - 1, data, skipEmpty);
    var s := segs[n - 1];
    StepByte(prev, s, data, segs, skipEmpty, a);
    if !InFile(s, a, skipEmpty) {
      if a / PAGE_SIZE in prev {
        BuildBytes(segs, n - 1, data, skipEmpty, a);
      } else {
        BuildKeys(segs, n - 1, data, skipEmpty, a / PAGE_SIZE);
        ExpectedOutside(segs, n - 1, a, data, skipEmpty);
      }
    }
  }

  /**
   * The loaded image, all properties together: the covered pages are
   * mapped, each with the W/X of the union of its segments, and every byte
   * is that of the last segment whose file bytes reach it, else zero.
   */
  lemma LoadedImage(segs: seq<Segment>, data: seq<u8>, skipEmpty: bool, v: nat, a: nat)
    requires FileFits(segs, data)
    ensures v in Build(segs, |segs|, data, skipEmpty) <==> exists j :: 0 <= j < |segs| && Covers(segs[j], v, skipEmpty)
    ensures v in Build(segs, |segs|, data, skipEmpty) ==>
      (W in Build(segs, |segs|, data, skipEmpty)[v].flags <==>
         exists j :: 0 <= j < |segs| && Covers(segs[j], v, skipEmpty) && segs[j].w) &&
      (X in Build(segs, |segs|, data, skipEmpty)[v].flags <==>
         exists j :: 0 <= j < |segs| && Covers(segs[j], v, skipEmpty) && segs[j].x)
    ensures a / PAGE_SIZE in Build(segs, |segs|, data, skipEmpty) ==>
      ByteAt(Build(segs, |segs|, data, skipEmpty), a) == Expected(segs, |segs|, a, data, skipEmpty)
  {
    BuildKeys(segs, |segs|, data, skipEmpty, v);
    UnionIsAny(segs, |segs|, v, skipEmpty);
    if v in Build(segs, |segs|, data, skipEmpty) {
      BuildFlags(segs, |segs|, data, skipEmpty, v);
    }
    if a / PAGE_SIZE in Build(segs, |segs|, data, skipEmpty) {
      BuildBytes(segs, |segs|, data, skipEmpty, a);
    }
  }

  /** One more page of s handled: page v is written, the others are as before. */
  lemma SegPagesStep(img: Image, s: Segment, v: nat, data: seq<u8>, segs: seq<Segment>, skipEmpty: bool)
    requires s.offset + s.filesz <= |data| && VpnStart(s) <= v
    ensures SegPages(img, s, v + 1, data, segs, skipEmpty) ==
      SegPages(img, s, v, data, segs, skipEmpty)[v := NewPage(Lookup(img, v), s, v, data, PageFlags(segs, v, skipEmpty))]
  {
  }

  /**
   * The second pass as written, for page v of s: on a page already mapped
   * without W, the translation `translate(.., "W")` fails, and the
   * segment's bytes are then skipped (ch4, ch5) or the whole load fails
   * (`?` in ch6, ch8). Elsewhere it is the corrected step.
   */
  function PageStepAsWritten(img: Image, s: Segment, v: nat, data: seq<u8>, flags: Flags, failOnReadOnly: bool): (r: Option<Image>)
    requires VpnStart(s) <= v && s.offset + s.filesz <= |data|
    ensures r.None? <==> failOnReadOnly && v in img && CopyLen(s, v) > 0 && W !in img[v].flags
    ensures !(v in img && CopyLen(s, v) > 0 && W !in img[v].flags) ==>
      r == Some(img[v := NewPage(Lookup(img, v), s, v, data, flags)])
    ensures r.Some? && v in img && CopyLen(s, v) > 0 && W !in img[v].flags ==> r.value == img
  {
    if v in img && CopyLen(s, v) > 0 && W !in img[v].flags then
      if failOnReadOnly then None else Some(img)
    else Some(img[v := NewPage(Lookup(img, v), s, v, data, flags)])
  }

  /**
   * The second pass as written over pages VpnStart(s) .. v-1 of segment s,
   * from img, a new page getting the first pass's flags: None once a page
   * step fails.
   */
  function SegPagesAsWritten(img: Image, s: Segment, v: nat, data: seq<u8>, segs: seq<Segment>, skipEmpty: bool,
                             failOnReadOnly: bool): Option<Image>
    requires s.offset + s.filesz <= |data|
    decreases v
  {
    if v <= VpnStart(s) then Some(img)
    else
      match SegPagesAsWritten(img, s, v - 1, data, segs, skipEmpty, failOnReadOnly)
      case None => None
      case Some(m) => PageStepAsWritten(m, s, v - 1, data, PageFlags(segs, v - 1, skipEmpty), failOnReadOnly)
  }

  /** The second pass as written for one segment: all the pages it covers, or nothing. */
  function SegStepAsWritten(img: Image, s: Segment, data: seq<u8>, segs: seq<Segment>, skipEmpty: bool,
                            failOnReadOnly: bool): Option<Image>
    requires s.kind == LoadType ==> s.offset + s.filesz <= |data|
  {
    if s.kind == LoadType && !(skipEmpty && s.memsz == 0) then
      SegPagesAsWritten(img, s, VpnEnd(s), data, segs, skipEmpty, failOnReadOnly)
    else Some(img)
  }

  /** The image the second pass as written builds from the first n segments; None once it fails. */
  function BuildAsWritten(segs: seq<Segment>, n: nat, data: seq<u8>, skipEmpty: bool, failOnReadOnly: bool): Option<Image>
    requires n <= |segs| && FileFits(segs, data)
  {
    if n == 0 then Some(map[])
    else
      match BuildAsWritten(segs, n - 1, data, skipEmpty, failOnReadOnly)
      case None => None
      case Some(m) => SegStepAsWritten(m, segs[n - 1], data, segs, skipEmpty, failOnReadOnly)
  }

  /**
   * Segment segs[i] has file bytes for page v, an earlier segment has
   * already mapped that page, and no segment covering it asks for W.
   */
  predicate ReadOnlyClash(segs: seq<Segment>, i: nat, v: nat, skipEmpty: bool)
    requires i < |segs|
  {
    Covers(segs[i], v, skipEmpty) && AnyCovers(segs, i, v, skipEmpty) && CopyLen(segs[i], v) > 0
    && W !in PageFlags(segs, v, skipEmpty)
  }

  /** Some of the first n segments copies bytes onto a page mapped without W. */
  ghost predicate ReadOnlyOverlap(segs: seq<Segment>, n: nat, skipEmpty: bool)
    requires n <= |segs|
  {
    exists i, v :: 0 <= i < n && ReadOnlyClash(segs, i, v, skipEmpty)
  }

  /**
   * One page step as written, when it does not fail: page u is mapped, a
   * new one with the given flags, a page mapped before keeps its flags, and
   * every other page is as it was.
   */
  lemma PageStepFrame(img: Image, s: Segment, u: nat, data: seq<u8>, flags: Flags, failOnReadOnly: bool, w: nat)
    requires VpnStart(s) <= u && s.offset + s.filesz <= |data|
    ensures var r := PageStepAsWritten(img, s, u, data, flags, failOnReadOnly);
      r.Some? ==>
        && (w in r.value <==> w in img || w == u)
        && (w != u && w in img ==> r.value[w] == img[w])
        && (w in img ==> r.value[w].flags == img[w].flags)
        && (w !in img && w in r.value ==> r.value[w].flags == flags)
  {
  }

  /** With failOnReadOnly off, the pass as written over a segment's pages never fails. */
  lemma {:induction false} SegPagesSkipping(img: Image, s: Segment, v: nat, data: seq<u8>, segs: seq<Segment>,
                                            skipEmpty: bool)
    requires s.offset + s.filesz <= |data|
    ensures SegPagesAsWritten(img, s, v, data, segs, skipEmpty, false).Some?
    decreases v
  {
    if v > VpnStart(s) {
      SegPagesSkipping(img, s, v - 1, data, segs, skipEmpty);
    }
  }

  /** Part way through segment s, a pass as written that has not failed maps the pages handled so far and no others. */
  lemma {:induction false} SegPagesKeys(img: Image, s: Segment, v: nat, data: seq<u8>, segs: seq<Segment>,
                                        skipEmpty: bool, failOnReadOnly: bool, w: nat)
    requires s.offset + s.filesz <= |data|
    ensures var r := SegPagesAsWritten(img, s, v, data, segs, skipEmpty, failOnReadOnly);
      r.Some? ==> (w in r.value <==> w in img || VpnStart(s) <= w < v)
    decreases v
  {
    if v > VpnStart(s) {
      SegPagesKeys(img, s, v - 1, data, segs, skipEmpty, failOnReadOnly, w);
      var prev := SegPagesAsWritten(img, s, v - 1, data, segs, skipEmpty, failOnReadOnly);
      if prev.Some? {
        PageStepFrame(prev.value, s, v - 1, data, PageFlags(segs, v - 1, skipEmpty), failOnReadOnly, w);
      }
    }
  }

  /** Part way through segment s, a pass as written that has not failed leaves every page outside the handled ones as it was. */
  lemma {:induction false} SegPagesKept(img: Image, s: Segment, v: nat, data: seq<u8>, segs: seq<Segment>,
                                        skipEmpty: bool, failOnReadOnly: bool, w: nat)
    requires s.offset + s.filesz <= |data|
    ensures var r := SegPagesAsWritten(img, s, v, data, segs, skipEmpty, failOnReadOnly);
      r.Some? && !(VpnStart(s) <= w < v) && w in img ==> w in r.value && r.value[w] == img[w]
    decreases v
  {
    if v > VpnStart(s) {
      SegPagesKept(img, s, v - 1, data, segs, skipEmpty, failOnReadOnly, w);
      var prev := SegPagesAsWritten(img, s, v - 1, data, segs, skipEmpty, failOnReadOnly);
      if prev.Some? {
        PageStepFrame(prev.value, s, v - 1, data, PageFlags(segs, v - 1, skipEmpty), failOnReadOnly, w);
      }
    }
  }

  /** Part way through segment s, a pass as written that has not failed keeps the flags of every page mapped before. */
  lemma {:induction false} SegPagesOldFlags(img: Image, s: Segment, v: nat, data: seq<u8>, segs: seq<Segment>,
                                            skipEmpty: bool, failOnReadOnly: bool, w: nat)
    requires s.offset + s.filesz <= |data|
    ensures var r := SegPagesAsWritten(img, s, v, data, segs, skipEmpty, failOnReadOnly);
      r.Some? && w in img ==> w in r.value && r.value[w].flags == img[w].flags
    decreases v
  {
    if v > VpnStart(s) {
      SegPagesOldFlags(img, s, v - 1, data, segs, skipEmpty, failOnReadOnly, w);
      var prev := SegPagesAsWritten(img, s, v - 1, data, segs, skipEmpty, failOnReadOnly);
      if prev.Some? {
        PageStepFrame(prev.value, s, v - 1, data, PageFlags(segs, v - 1, skipEmpty), failOnReadOnly, w);
      }
    }
  }

  /** Part way through segment s, a page the pass as written mapped anew has the first pass's flags. */
  lemma {:induction false} SegPagesNewFlags(img: Image, s: Segment, v: nat, data: seq<u8>, segs: seq<Segment>,
                                            skipEmpty: bool, failOnReadOnly: bool, w: nat)
    requires s.offset + s.filesz <= |data|
    ensures var r := SegPagesAsWritten(img, s, v, data, segs, skipEmpty, failOnReadOnly);
      r.Some? && w !in img && w in r.value ==> r.value[w].flags == PageFlags(segs, w, skipEmpty)
    decreases v
  {
    if v > VpnStart(s) {
      var prev := SegPagesAsWritten(img, s, v - 1, data, segs, skipEmpty, failOnReadOnly);
      if prev.Some? && w !in img {
        var flags := PageFlags(segs, v - 1, skipEmpty);
        var r := SegPagesAsWritten(img, s, v, data, segs, skipEmpty, failOnReadOnly);
        assert r == PageStepAsWritten(prev.value, s, v - 1, data, flags, failOnReadOnly);
        PageStepFrame(prev.value, s, v - 1, data, flags, failOnReadOnly, w);
        if w in prev.value {
          SegPagesNewFlags(img, s, v - 1, data, segs, skipEmpty, failOnReadOnly, w);
        } else {
          SegPagesKeys(img, s, v - 1, data, segs, skipEmpty, failOnReadOnly, w);
          assert r.Some? && w in r.value ==> w == v - 1;
        }
      }
    }
  }

  /**
   * Part way through segment s, whenever the pass as written has not failed
   * (and with failOnReadOnly off it never does): the pages handled so far
   * are mapped, a new one with the first pass's flags, a page mapped before
   * keeps its flags, and every page outside is as it was.
   */
  lemma SegPagesAsWrittenAt(img: Image, s: Segment, v: nat, data: seq<u8>, segs: seq<Segment>,
                            skipEmpty: bool, failOnReadOnly: bool, w: nat)
    requires s.offset + s.filesz <= |data|
    ensures !failOnReadOnly ==> SegPagesAsWritten(img, s, v, data, segs, skipEmpty, failOnReadOnly).Some?
    ensures var r := SegPagesAsWritten(img, s, v, data, segs, skipEmpty, failOnReadOnly);
      r.Some? ==>
        && (w in r.value <==> w in img || VpnStart(s) <= w < v)
        && (!(VpnStart(s) <= w < v) && w in img ==> r.value[w] == img[w])
        && (w in img ==> r.value[w].flags == img[w].flags)
        && (w !in img && w in r.value ==> r.value[w].flags == PageFlags(segs, w, skipEmpty))
  {
    if !failOnReadOnly {
      SegPagesSkipping(img, s, v, data, segs, skipEmpty);
    }
    SegPagesKeys(img, s, v, data, segs, skipEmpty, failOnReadOnly, w);
    SegPagesKept(img, s, v, data, segs, skipEmpty, failOnReadOnly, w);
    SegPagesOldFlags(img, s, v, data, segs, skipEmpty, failOnReadOnly, w);
    SegPagesNewFlags(img, s, v, data, segs, skipEmpty, failOnReadOnly, w);
  }

  /** Once the pass as written has failed on a segment's page, it stays failed for the later pages. */
  lemma {:induction false} SegPagesNoneStays(img: Image, s: Segment, v: nat, u: nat, data: seq<u8>, segs: seq<Segment>,
                                             skipEmpty: bool, failOnReadOnly: bool)
    requires s.offset + s.filesz <= |data| && v <= u
    requires SegPagesAsWritten(img, s, v, data, segs, skipEmpty, failOnReadOnly).None?
    ensures SegPagesAsWritten(img, s, u, data, segs, skipEmpty, failOnReadOnly).None?
    decreases u
  {
    if v < u {
      SegPagesNoneStays(img, s, v, u - 1, data, segs, skipEmpty, failOnReadOnly);
    }
  }

  /**
   * Where segment segs[i] meets no read-only page among its pages before v,
   * the pass as written over them is the corrected one.
   */
  lemma {:induction false} SegPagesAgree(segs: seq<Segment>, i: nat, v: nat, data: seq<u8>, skipEmpty: bool, failOnReadOnly: bool)
    requires i < |segs| && FileFits(segs, data) && segs[i].kind == LoadType && !(skipEmpty && segs[i].memsz == 0)
    requires v <= VpnEnd(segs[i])
    requires forall w :: VpnStart(segs[i]) <= w < v ==> !ReadOnlyClash(segs, i, w, skipEmpty)
    ensures SegPagesAsWritten(Build(segs, i, data, skipEmpty), segs[i], v, data, segs, skipEmpty, failOnReadOnly)
         == Some(SegPages(Build(segs, i, data, skipEmpty), segs[i], v, data, segs, skipEmpty))
    decreases v
  {
    if v > VpnStart(segs[i]) {
      var s, img, u := segs[i], Build(segs, i, data, skipEmpty), v - 1;
      SegPagesAgree(segs, i, u, data, skipEmpty, failOnReadOnly);
      var m := SegPages(img, s, u, data, segs, skipEmpty);
      SegPagesAt(img, s, u, data, segs, skipEmpty, u);
      assert Lookup(m, u) == Lookup(img, u);
      BuildKeys(segs, i, data, skipEmpty, u);
      if u in img {
        BuildFlags(segs, i, data, skipEmpty, u);
      }
      assert !ReadOnlyClash(segs, i, u, skipEmpty);
      var flags := PageFlags(segs, u, skipEmpty);
      assert SegPagesAsWritten(img, s, v, data, segs, skipEmpty, failOnReadOnly) ==
        PageStepAsWritten(m, s, u, data, flags, failOnReadOnly);
      assert PageStepAsWritten(m, s, u, data, flags, failOnReadOnly) == Some(m[u := NewPage(Lookup(img, u), s, u, data, flags)]);
      SegPagesStep(img, s, u, data, segs, skipEmpty);
    }
  }

  /** A read-only clash of segs[i] on page w fails the pass as written at that page, when it fails on those. */
  lemma SegPagesFailsAt(segs: seq<Segment>, i: nat, data: seq<u8>, skipEmpty: bool, w: nat)
    requires i < |segs| && FileFits(segs, data) && segs[i].kind == LoadType
    requires VpnStart(segs[i]) <= w && ReadOnlyClash(segs, i, w, skipEmpty)
    ensures SegPagesAsWritten(Build(segs, i, data, skipEmpty), segs[i], w + 1, data, segs, skipEmpty, true).None?
  {
    var s, img := segs[i], Build(segs, i, data, skipEmpty);
    var prev := SegPagesAsWritten(img, s, w, data, segs, skipEmpty, true);
    if prev.Some? {
      BuildKeys(segs, i, data, skipEmpty, w);
      BuildFlags(segs, i, data, skipEmpty, w);
      SegPagesOldFlags(img, s, w, data, segs, skipEmpty, true, w);
    }
  }

  /** A read-only clash of segs[i] on a page before v fails the pass as written, when it fails on those. */
  lemma SegPagesFails(segs: seq<Segment>, i: nat, v: nat, data: seq<u8>, skipEmpty: bool, w: nat)
    requires i < |segs| && FileFits(segs, data) && segs[i].kind == LoadType
    requires VpnStart(segs[i]) <= w < v && ReadOnlyClash(segs, i, w, skipEmpty)
    ensures SegPagesAsWritten(Build(segs, i, data, skipEmpty), segs[i], v, data, segs, skipEmpty, true).None?
  {
    SegPagesFailsAt(segs, i, data, skipEmpty, w);
    SegPagesNoneStays(Build(segs, i, data, skipEmpty), segs[i], w + 1, v, data, segs, skipEmpty, true);
  }

  /**
   * Without a read-only overlap, the second pass as written builds the
   * corrected image, whether it skips or fails on such a page.
   */
  lemma {:induction false} BuildAsWrittenAgrees(segs: seq<Segment>, n: nat, data: seq<u8>, skipEmpty: bool, failOnReadOnly: bool)
    requires n <= |segs| && FileFits(segs, data) && !ReadOnlyOverlap(segs, n, skipEmpty)
    ensures BuildAsWritten(segs, n, data, skipEmpty, failOnReadOnly) == Some(Build(segs, n, data, skipEmpty))
  {
    if n > 0 {
      assert !ReadOnlyOverlap(segs, n - 1, skipEmpty);
      BuildAsWrittenAgrees(segs, n - 1, data, skipEmpty, failOnReadOnly);
      var s := segs[n - 1];
      if s.kind == LoadType && !(skipEmpty && s.memsz == 0) {
        SegPagesAgree(segs, n - 1, VpnEnd(s), data, skipEmpty, failOnReadOnly);
      }
    }
  }

  /** With a read-only overlap, the pass that fails on such a page (ch6, ch8) fails the load. */
  lemma {:induction false} BuildAsWrittenFails(segs: seq<Segment>, n: nat, data: seq<u8>, skipEmpty: bool)
    requires n <= |segs| && FileFits(segs, data) && ReadOnlyOverlap(segs, n, skipEmpty)
    ensures BuildAsWritten(segs, n, data, skipEmpty, true).None?
  {
    var i, w :| 0 <= i < n && ReadOnlyClash(segs, i, w, skipEmpty);
    if ReadOnlyOverlap(segs, n - 1, skipEmpty) {
      BuildAsWrittenFails(segs, n - 1, data, skipEmpty);
    } else {
      assert i == n - 1;
      var s := segs[n - 1];
      assert Covers(s, w, skipEmpty);
      BuildAsWrittenAgrees(segs, n - 1, data, skipEmpty, true);
      SegPagesFails(segs, n - 1, VpnEnd(s), data, skipEmpty, w);
      assert BuildAsWritten(segs, n, data, skipEmpty, true) == SegStepAsWritten(Build(segs, n - 1, data, skipEmpty), s, data, segs, skipEmpty, true);
    }
  }

  /**
   * Whenever the pass as written succeeds, and with failOnReadOnly off it
   * always does, it maps exactly the covered pages, each with the first
   * pass's flags, as the corrected pass does.
   */
  lemma {:induction false} BuildAsWrittenPages(segs: seq<Segment>, n: nat, data: seq<u8>, skipEmpty: bool, failOnReadOnly: bool, v: nat)
    requires n <= |segs| && FileFits(segs, data)
    ensures !failOnReadOnly ==> BuildAsWritten(segs, n, data, skipEmpty, failOnReadOnly).Some?
    ensures var r := BuildAsWritten(segs, n, data, skipEmpty, failOnReadOnly);
      r.Some? ==>
        && (v in r.value <==> AnyCovers(segs, n, v, skipEmpty))
        && (v in r.value ==> r.value[v].flags == PageFlags(segs, v, skipEmpty))
  {
    if n > 0 {
      BuildAsWrittenPages(segs, n - 1, data, skipEmpty, failOnReadOnly, v);
      var prev := BuildAsWritten(segs, n - 1, data, skipEmpty, failOnReadOnly);
      var s := segs[n - 1];
      if prev.Some? && s.kind == LoadType && !(skipEmpty && s.memsz == 0) {
        SegPagesAsWrittenAt(prev.value, s, VpnEnd(s), data, segs, skipEmpty, failOnReadOnly, v);
      }
    }
  }

  /** Once the pass as written has failed, it stays failed for the later segments. */
  lemma {:induction false} BuildNoneStays(segs: seq<Segment>, n: nat, m: nat, data: seq<u8>, skipEmpty: bool, failOnReadOnly: bool)
    requires n <= m <= |segs| && FileFits(segs, data)
    requires BuildAsWritten(segs, n, data, skipEmpty, failOnReadOnly).None?
    ensures BuildAsWritten(segs, m, data, skipEmpty, failOnReadOnly).None?
  {
    if n < m {
      BuildNoneStays(segs, n, m - 1, data, skipEmpty, failOnReadOnly);
    }
  }

  /**
   * The loop step as written, for page v of s from the image so far: the
   * flags a new page is given are those of the first pass.
   */
  lemma SegPagesAsWrittenNext(img0: Image, s: Segment, v: nat, data: seq<u8>, segs: seq<Segment>, skipEmpty: bool,
                              failOnReadOnly: bool, img: Image, flags: Flags)
    requires s.offset + s.filesz <= |data| && VpnStart(s) <= v
    requires SegPagesAsWritten(img0, s, v, data, segs, skipEmpty, failOnReadOnly) == Some(img)
    requires v !in img ==> flags == PageFlags(segs, v, skipEmpty)
    ensures SegPagesAsWritten(img0, s, v + 1, data, segs, skipEmpty, failOnReadOnly) ==
      PageStepAsWritten(img, s, v, data, flags, failOnReadOnly)
  {
    assert NewPage(Lookup(img, v), s, v, data, flags) == NewPage(Lookup(img, v), s, v, data, PageFlags(segs, v, skipEmpty));
  }

  /**
   * The second pass for one load segment s = segs[i]: each page it covers is
   * mapped with the first pass's flags if `mapped` does not hold it yet, and
   * written over through the W translation otherwise.
   */
  method MapSegmentPages(segs: seq<Segment>, i: nat, data: seq<u8>, skipEmpty: bool, failOnReadOnly: bool,
                         info: map<nat, Rwx>, img0: Image, mapped0: set<nat>) returns (r: Option<Image>, mapped: set<nat>)
    requires i < |segs| && FileFits(segs, data) && segs[i].kind == LoadType && !(skipEmpty && segs[i].memsz == 0)
    requires TableFor(segs, |segs|, skipEmpty, info)
    requires mapped0 == img0.Keys
    ensures r == SegPagesAsWritten(img0, segs[i], VpnEnd(segs[i]), data, segs, skipEmpty, failOnReadOnly)
    ensures r.Some? ==> mapped == r.value.Keys
  {
    if VpnStart(segs[i]) < VpnEnd(segs[i]) {
      r, mapped := MapPagesFrom(segs, i, data, skipEmpty, failOnReadOnly, info, img0, mapped0);
    } else {
      r, mapped := Some(img0), mapped0;
    }
  }

  /** The page loop of MapSegmentPages over a segment that covers at least one page. */
  method MapPagesFrom(segs: seq<Segment>, i: nat, data: seq<u8>, skipEmpty: bool, failOnReadOnly: bool,
                      info: map<nat, Rwx>, img0: Image, mapped0: set<nat>) returns (r: Option<Image>, mapped: set<nat>)
    requires i < |segs| && FileFits(segs, data) && segs[i].kind == LoadType && !(skipEmpty && segs[i].memsz == 0)
    requires TableFor(segs, |segs|, skipEmpty, info)
    requires mapped0 == img0.Keys && VpnStart(segs[i]) < VpnEnd(segs[i])
    ensures r == SegPagesAsWritten(img0, segs[i], VpnEnd(segs[i]), data, segs, skipEmpty, failOnReadOnly)
    ensures r.Some? ==> mapped == r.value.Keys
  {
    r, mapped := Some(img0), mapped0;
    var hi := VpnEnd(segs[i]);
    var v := VpnStart(segs[i]);
    while v < hi && r.Some?
      invariant VpnStart(segs[i]) <= v <= hi
      invariant r.Some? ==> Handled(segs, i, data, skipEmpty, failOnReadOnly, img0, v, r.value, mapped)
      invariant r.None? ==> SegPagesAsWritten(img0, segs[i], v, data, segs, skipEmpty, failOnReadOnly).None?
      decreases hi - v
    {
      r, mapped := MapPage(segs, i, v, data, skipEmpty, failOnReadOnly, info, img0, r.value, mapped);
      v := v + 1;
    }
    if r.None? {
      SegPagesNoneStays(img0, segs[i], v, hi, data, segs, skipEmpty, failOnReadOnly);
    }
  }

  /** Pages VpnStart .. v-1 of segs[i] are handled as written from img0 on, and `mapped` holds the image's pages. */
  ghost predicate Handled(segs: seq<Segment>, i: nat, data: seq<u8>, skipEmpty: bool, failOnReadOnly: bool, img0: Image,
                          v: nat, img: Image, mapped: set<nat>)
    requires i < |segs| && FileFits(segs, data) && segs[i].kind == LoadType
  {
    SegPagesAsWritten(img0, segs[i], v, data, segs, skipEmpty, failOnReadOnly) == Some(img) && mapped == img.Keys
  }

  /**
   * One page v of s = segs[i] in the second pass: a page not yet mapped is
   * mapped with the first pass's flags; on a mapped one the bytes go through
   * `translate(.., "W")`, and a page without W skips them or fails the load.
   */
  method MapPage(segs: seq<Segment>, i: nat, v: nat, data: seq<u8>, skipEmpty: bool, failOnReadOnly: bool,
                 info: map<nat, Rwx>, ghost img0: Image, img1: Image, mapped1: set<nat>) returns (r: Option<Image>, mapped: set<nat>)
    requires i < |segs| && FileFits(segs, data) && Covers(segs[i], v, skipEmpty)
    requires TableFor(segs, |segs|, skipEmpty, info)
    requires Handled(segs, i, data, skipEmpty, failOnReadOnly, img0, v, img1, mapped1)
    ensures r.Some? ==> Handled(segs, i, data, skipEmpty, failOnReadOnly, img0, v + 1, r.value, mapped)
    ensures r.None? ==> SegPagesAsWritten(img0, segs[i], v + 1, data, segs, skipEmpty, failOnReadOnly).None?
  {
    var s := segs[i];
    mapped := mapped1;
    var flags: Flags := {};
    if v !in mapped {
      mapped := mapped + {v};
      UnionIsAny(segs, |segs|, v, skipEmpty);
      var u := if v in info then info[v] else Rwx(true, false, false);
      flags := ChooseFlags(u);
    } else if CopyLen(s, v) > 0 && W !in img1[v].flags {
      r := if failOnReadOnly then None else Some(img1);
      SegPagesAsWrittenNext(img0, s, v, data, segs, skipEmpty, failOnReadOnly, img1, flags);
      return;
    }
    r := Some(img1[v := NewPage(Lookup(img1, v), s, v, data, flags)]);
    SegPagesAsWrittenNext(img0, s, v, data, segs, skipEmpty, failOnReadOnly, img1, flags);
  }

  /**
   * The second pass, with the first pass's table as `info`: each covered
   * page is mapped the first time a segment reaches it and written over
   * later, as written: None once a read-only page fails the load.
   */
  method MapSegments(segs: seq<Segment>, data: seq<u8>, skipEmpty: bool, failOnReadOnly: bool, info: map<nat, Rwx>)
    returns (r: Option<Image>)
    requires FileFits(segs, data)
    requires TableFor(segs, |segs|, skipEmpty, info)
    ensures r == BuildAsWritten(segs, |segs|, data, skipEmpty, failOnReadOnly)
  {
    var img: Image := map[];
    var mapped: set<nat> := {};
    var i := 0;
    while i < |segs|
      invariant 0 <= i <= |segs|
      invariant BuildAsWritten(segs, i, data, skipEmpty, failOnReadOnly) == Some(img) && mapped == img.Keys
    {
      var s := segs[i];
      if s.kind == LoadType && !(skipEmpty && s.memsz == 0) {
        var next;
        next, mapped := MapSegmentPages(segs, i, data, skipEmpty, failOnReadOnly, info, img, mapped);
        if next.None? {
          BuildNoneStays(segs, i + 1, |segs|, data, skipEmpty, failOnReadOnly);
          return None;
        }
        img := next.value;
      }
      i := i + 1;
    }
    r := Some(img);
  }

  /**
   * Both passes: None when a program header's type does not parse,
   * otherwise what the second pass as written gives.
   */
  method LoadSegments(segs: seq<Segment>, data: seq<u8>, skipEmpty: bool, failOnReadOnly: bool) returns (r: Option<Image>)
    requires FileFits(segs, data)
    ensures HasUnparsable(segs) ==> r.None?
    ensures !HasUnparsable(segs) ==> r == BuildAsWritten(segs, |segs|, data, skipEmpty, failOnReadOnly)
  {
    var info := CollectPageInfo(segs, skipEmpty);
    if info.None? {
      return None;
    }
    r := MapSegments(segs, data, skipEmpty, failOnReadOnly, info.value);
  }

  /** Two read-only segments sharing page 0: byte 0 from the first, byte 8 from the second. */
  const SHARED_A: Segment := Segment(LoadType, 0, 0, 1, 1, true, false, false)
  const SHARED_B: Segment := Segment(LoadType, 8, 1, 1, 1, true, false, false)
  const SHARED_SEGS: seq<Segment> := [SHARED_A, SHARED_B]
  const SHARED_DATA: seq<u8> := [5, 7]

  /** The first segment alone maps page 0 as a new page. */
  lemma SharedFirstPage(skipEmpty: bool)
    ensures FileFits(SHARED_SEGS, SHARED_DATA) && Covers(SHARED_A, 0, skipEmpty)
    ensures 0 in Build(SHARED_SEGS, 1, SHARED_DATA, skipEmpty)
    ensures Build(SHARED_SEGS, 1, SHARED_DATA, skipEmpty)[0] ==
      NewPage(None, SHARED_A, 0, SHARED_DATA, PageFlags(SHARED_SEGS, 0, skipEmpty))
  {
    assert FileFits(SHARED_SEGS, SHARED_DATA);
    assert Build(SHARED_SEGS, 0, SHARED_DATA, skipEmpty) == map[];
    SegStepFrame(map[], SHARED_A, SHARED_DATA, SHARED_SEGS, skipEmpty, 0);
  }

  /** After the first segment, page 0 is mapped read-only and byte 8 is still zero. */
  lemma SharedFirstSegment(skipEmpty: bool)
    ensures FileFits(SHARED_SEGS, SHARED_DATA)
    ensures 0 in Build(SHARED_SEGS, 1, SHARED_DATA, skipEmpty)
    ensures W !in Build(SHARED_SEGS, 1, SHARED_DATA, skipEmpty)[0].flags
    ensures ByteAt(Build(SHARED_SEGS, 1, SHARED_DATA, skipEmpty), 8) == 0
  {
    SharedFirstPage(skipEmpty);
    SharedReadOnly(skipEmpty);
    NewPageByte(None, SHARED_A, 0, SHARED_DATA, PageFlags(SHARED_SEGS, 0, skipEmpty), 8, skipEmpty);
  }

  /** Neither segment asks for W, so page 0 is mapped without it. */
  lemma SharedReadOnly(skipEmpty: bool)
    ensures W !in PageFlags(SHARED_SEGS, 0, skipEmpty)
  {
    UnionIsAny(SHARED_SEGS, 2, 0, skipEmpty);
    assert forall j :: 0 <= j < 2 ==> !SHARED_SEGS[j].w;
  }

  /** The corrected second pass puts the second segment's byte, 7, at address 8. */
  lemma SharedBothSegments(skipEmpty: bool)
    ensures FileFits(SHARED_SEGS, SHARED_DATA)
    ensures 0 in Build(SHARED_SEGS, 2, SHARED_DATA, skipEmpty)
    ensures ByteAt(Build(SHARED_SEGS, 2, SHARED_DATA, skipEmpty), 8) == 7
  {
    assert FileFits(SHARED_SEGS, SHARED_DATA);
    assert Covers(SHARED_B, 0, skipEmpty);
    BuildKeys(SHARED_SEGS, 2, SHARED_DATA, skipEmpty, 0);
    UnionIsAny(SHARED_SEGS, 2, 0, skipEmpty);
    BuildBytes(SHARED_SEGS, 2, SHARED_DATA, skipEmpty, 8);
    assert InFile(SHARED_B, 8, skipEmpty);
  }

  /** The second segment copies its byte onto page 0, which the first mapped read-only. */
  lemma SharedOverlap(skipEmpty: bool)
    ensures ReadOnlyOverlap(SHARED_SEGS, 2, skipEmpty)
  {
    SharedReadOnly(skipEmpty);
    assert SHARED_SEGS[1] == SHARED_B && SHARED_SEGS[0] == SHARED_A;
    assert ReadOnlyClash(SHARED_SEGS, 1, 0, skipEmpty) by {
      assert VpnEnd(SHARED_A) == 1 && VpnEnd(SHARED_B) == 1;
      assert CopyLen(SHARED_B, 0) == 1;
      assert Covers(SHARED_B, 0, skipEmpty);
      assert Covers(SHARED_A, 0, skipEmpty);
    }
  }

  /** The first segment alone clashes with nothing. */
  lemma SharedFirstNoOverlap(skipEmpty: bool)
    ensures !ReadOnlyOverlap(SHARED_SEGS, 1, skipEmpty)
  {
    forall i, v | 0 <= i < 1
      ensures !ReadOnlyClash(SHARED_SEGS, i, v, skipEmpty)
    {
      assert !AnyCovers(SHARED_SEGS, 0, v, skipEmpty);
    }
  }

  /** The pass as written over both segments is the first segment's image plus one page step for the second. */
  lemma SharedAsWritten(skipEmpty: bool, failOnReadOnly: bool)
    ensures FileFits(SHARED_SEGS, SHARED_DATA)
    ensures BuildAsWritten(SHARED_SEGS, 2, SHARED_DATA, skipEmpty, failOnReadOnly) ==
      PageStepAsWritten(Build(SHARED_SEGS, 1, SHARED_DATA, skipEmpty), SHARED_B, 0, SHARED_DATA,
                        PageFlags(SHARED_SEGS, 0, skipEmpty), failOnReadOnly)
  {
    assert FileFits(SHARED_SEGS, SHARED_DATA);
    SharedFirstNoOverlap(skipEmpty);
    BuildAsWrittenAgrees(SHARED_SEGS, 1, SHARED_DATA, skipEmpty, failOnReadOnly);
    var first := Build(SHARED_SEGS, 1, SHARED_DATA, skipEmpty);
    assert VpnEnd(SHARED_B) == 1 && VpnStart(SHARED_B) == 0;
    assert SegPagesAsWritten(first, SHARED_B, 0, SHARED_DATA, SHARED_SEGS, skipEmpty, failOnReadOnly) == Some(first);
  }

  /**
   * With two non-writable segments on one page, the loader as written leaves
   * byte 8 zero (ch4, ch5) or refuses the file (ch6, ch8), while the byte
   * belongs to the second segment's file bytes, 7; the corrected second
   * pass puts it there.
   */
  lemma ReadOnlyOverlapDropped(skipEmpty: bool, failOnReadOnly: bool)
    ensures FileFits(SHARED_SEGS, SHARED_DATA) && ReadOnlyOverlap(SHARED_SEGS, 2, skipEmpty)
    ensures var asWritten := BuildAsWritten(SHARED_SEGS, 2, SHARED_DATA, skipEmpty, failOnReadOnly);
      (failOnReadOnly ==> asWritten.None?) &&
      (!failOnReadOnly ==> asWritten.Some? && 0 in asWritten.value && asWritten.value[0].bytes[8] == 0)
    ensures 0 in Build(SHARED_SEGS, 2, SHARED_DATA, skipEmpty) &&
      Build(SHARED_SEGS, 2, SHARED_DATA, skipEmpty)[0].bytes[8] == 7
  {
    SharedFirstSegment(skipEmpty);
    SharedBothSegments(skipEmpty);
    SharedOverlap(skipEmpty);
    SharedAsWritten(skipEmpty, failOnReadOnly);
    var first := Build(SHARED_SEGS, 1, SHARED_DATA, skipEmpty);
    assert CopyLen(SHARED_B, 0) > 0 && 0 in first && W !in first[0].flags;
  }

  /**
   * The stack: `count` zero pages from `lo` with VRWU. None where a stack
   * page is already mapped, which the page-table walk refuses with a panic.
   */
  function MapStack(img: Image, lo: nat, count: nat): (r: Option<Image>)
    ensures r.None? <==> exists v :: lo <= v < lo + count && v in img
    ensures r.Some? ==> forall v :: v in r.value <==> v in img || lo <= v < lo + count
    ensures r.Some? ==> forall v :: lo <= v < lo + count ==> r.value[v] == UserPage({V, R, W, U}, ZeroPage())
    ensures r.Some? ==> forall v :: v in img ==> r.value[v] == img[v]
    decreases count
  {
    if count == 0 then Some(img)
    else if lo in img then None
    else
      match MapStack(img, lo + 1, count - 1)
      case None => None
      case Some(rest) => Some(rest[lo := UserPage({V, R, W, U}, ZeroPage())])
  }
}
