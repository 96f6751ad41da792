/**
 * The kernel-vm crate: an address space is a page table plus the list of
 * virtual page ranges (`areas`) mapped into it.
 *
 * The page table is its leaf entries: a finite map from virtual page number
 * to (physical page number, flags); the intermediate table pages the walker
 * allocates are not part of the model. Physical memory is one `array<u8>`
 * indexed by physical address, and the pages the `PageManager` hands out
 * are parameters (`pbase`, `bases`): the allocator is the caller's.
 */
module KernelVm {
  import opened Words
  import opened Wrappers

  const PAGE_BITS: nat := 12
  const PAGE_SIZE: nat := 4096

  type Vpn = nat
  type Ppn = nat

  /** The page-table entry flag bits. */
  datatype Perm = V | R | W | X | U | G | A | D
  type Flags = set<Perm>

  /** A leaf page-table entry. */
  datatype Pte = Pte(ppn: Ppn, flags: Flags)

  predicate IsValid(e: Pte) {
    V in e.flags
  }

  type PageTable = map<Vpn, Pte>

  /** `start..end` of virtual page numbers. */
  datatype Range = Range(start: Vpn, end: Vpn)
  {
    function Count(): nat {
      if end >= start then end - start else 0
    }
    predicate Contains(v: Vpn) {
      start <= v < end
    }
  }

  /** No page of `r` has a valid entry yet (what `map_extern`'s per-page assertion checks). */
  predicate Unmapped(pt: PageTable, r: Range) {
    forall v :: r.Contains(v) && v in pt ==> !IsValid(pt[v])
  }

  /** The table after mapping page `r.start + i` to `pbase + i` with `flags` for every i, in order. */
  function Install(pt: PageTable, r: Range, pbase: Ppn, flags: Flags): PageTable
    decreases r.Count()
  {
    if r.end <= r.start then pt
    else Install(pt, Range(r.start, r.end - 1), pbase, flags)[r.end - 1 := Pte(pbase + (r.end - 1 - r.start), flags)]
  }

  /**
   * After installing r, page v of r maps to `pbase + (v - r.start)` with
   * `flags`, and a page outside r is mapped exactly as before.
   */
  lemma {:induction false} InstallAt(pt: PageTable, r: Range, pbase: Ppn, flags: Flags, v: Vpn)
    ensures r.Contains(v) ==>
      (v in Install(pt, r, pbase, flags) && Install(pt, r, pbase, flags)[v] == Pte(pbase + (v - r.start), flags))
    ensures !r.Contains(v) ==>
      ((v in Install(pt, r, pbase, flags) <==> v in pt) && (v in pt ==> Install(pt, r, pbase, flags)[v] == pt[v]))
    decreases r.Count()
  {
    if r.start < r.end {
      InstallAt(pt, Range(r.start, r.end - 1), pbase, flags, v);
    }
  }

  /**
   * `translate(addr, flags)`: the physical address of `addr`, or None when its
   * page has no valid entry or the entry lacks one of `flags`.
   */
  function Translate(pt: PageTable, addr: nat, f: Flags): (r: Option<nat>)
    ensures r.Some? <==> addr / PAGE_SIZE in pt && IsValid(pt[addr / PAGE_SIZE]) && f <= pt[addr / PAGE_SIZE].flags
    ensures r.Some? ==> r.value / PAGE_SIZE == pt[addr / PAGE_SIZE].ppn && r.value % PAGE_SIZE == addr % PAGE_SIZE
  {
    var vpn := addr / PAGE_SIZE;
    if vpn in pt && IsValid(pt[vpn]) && f <= pt[vpn].flags then
      Some(pt[vpn].ppn * PAGE_SIZE + addr % PAGE_SIZE)
    else None
  }

  /**
   * After `map_extern(r, pbase, flags)` with valid `flags`, every address in
   * the range translates, for any subset of `flags`, to the same offset from
   * `pbase`; addresses outside the range translate as before.
   */
  lemma {:induction false} InstallTranslates(pt: PageTable, r: Range, pbase: Ppn, flags: Flags, addr: nat, f: Flags)
    requires V in flags
    ensures r.start * PAGE_SIZE <= addr < r.end * PAGE_SIZE && f <= flags ==>
      Translate(Install(pt, r, pbase, flags), addr, f) == Some(pbase * PAGE_SIZE + (addr - r.start * PAGE_SIZE))
    ensures !(r.start * PAGE_SIZE <= addr < r.end * PAGE_SIZE) ==>
      Translate(Install(pt, r, pbase, flags), addr, f) == Translate(pt, addr, f)
  {
    var vpn := addr / PAGE_SIZE;
    var t := Install(pt, r, pbase, flags);
    InstallAt(pt, r, pbase, flags, vpn);
    assert addr == vpn * PAGE_SIZE + addr % PAGE_SIZE;
    if r.start * PAGE_SIZE <= addr < r.end * PAGE_SIZE {
      assert r.start <= vpn < r.end;
      assert t[vpn] == Pte(pbase + (vpn - r.start), flags);
      assert (pbase + (vpn - r.start)) * PAGE_SIZE == pbase * PAGE_SIZE + vpn * PAGE_SIZE - r.start * PAGE_SIZE;
    } else {
      assert !r.Contains(vpn);
    }
  }

  /** What `map` leaves at byte k of its fresh pages: `offset` zeros, the data, then zeros. */
  function Filled(data: seq<u8>, offset: nat, k: nat): u8 {
    if offset <= k < offset + |data| then data[k - offset] else 0
  }

  /** `m` holds, from page `pbase` on, the `count` pages `map` fills with `data` at `offset`. */
  ghost predicate Loaded(m: seq<u8>, pbase: Ppn, count: nat, data: seq<u8>, offset: nat) {
    (pbase + count) * PAGE_SIZE <= |m| &&
    forall a :: pbase * PAGE_SIZE <= a < (pbase + count) * PAGE_SIZE ==> m[a] == Filled(data, offset, a - pbase * PAGE_SIZE)
  }

  /**
   * What `map` stores can be read back through the new mapping: byte j of
   * `data` sits at virtual address `start * 4096 + offset + j`.
   */
  lemma MapReadsBack(pt: PageTable, r: Range, pbase: Ppn, flags: Flags, data: seq<u8>, offset: nat, m: seq<u8>, j: nat)
    requires V in flags && r.start < r.end && r.Count() * PAGE_SIZE >= |data| + offset && j < |data|
    requires Loaded(m, pbase, r.Count(), data, offset)
    ensures var t := Translate(Install(pt, r, pbase, flags), r.start * PAGE_SIZE + offset + j, {});
      t.Some? && t.value < |m| && m[t.value] == data[j]
  {
    var addr := r.start * PAGE_SIZE + offset + j;
    assert r.end * PAGE_SIZE == r.start * PAGE_SIZE + r.Count() * PAGE_SIZE;
    InstallTranslates(pt, r, pbase, flags, addr, {});
    var p := pbase * PAGE_SIZE + offset + j;
    assert (pbase + r.Count()) * PAGE_SIZE == pbase * PAGE_SIZE + r.Count() * PAGE_SIZE;
    assert m[p] == Filled(data, offset, p - pbase * PAGE_SIZE);
  }

  /** The deallocation `free_allocated_pages_and_root` asks for on one area, if any. */
  function FreeStep(a: Range, skip: Option<Vpn>, pt: PageTable): seq<(Pte, nat)> {
    if skip.Some? && a.Contains(skip.value) then []
    else if a.Count() == 0 then []
    else if a.start in pt && IsValid(pt[a.start]) then [(pt[a.start], a.Count())]
    else []
  }

  /** Every deallocation `free_allocated_pages_and_root` asks for, in area order. */
  function Freed(areas: seq<Range>, skip: Option<Vpn>, pt: PageTable): seq<(Pte, nat)>
    decreases |areas|
  {
    if areas == [] then [] else Freed(areas[..|areas| - 1], skip, pt) + FreeStep(areas[|areas| - 1], skip, pt)
  }

  /** Freeing distributes over a split of the area list. */
  lemma {:induction false} FreedAppend(xs: seq<Range>, ys: seq<Range>, skip: Option<Vpn>, pt: PageTable)
    ensures Freed(xs + ys, skip, pt) == Freed(xs, skip, pt) + Freed(ys, skip, pt)
    decreases |ys|
  {
    if ys == [] {
      assert xs + ys == xs;
    } else {
      var ys' := ys[..|ys| - 1];
      assert (xs + ys)[..|xs + ys| - 1] == xs + ys';
      FreedAppend(xs, ys', skip, pt);
    }
  }

  /** An area holding the skipped page is never deallocated. */
  lemma FreedOmitsSkipped(areas: seq<Range>, skip: Vpn, pt: PageTable, i: nat)
    requires i < |areas| && areas[i].Contains(skip)
    ensures Freed(areas, Some(skip), pt) == Freed(areas[..i], Some(skip), pt) + Freed(areas[i + 1..], Some(skip), pt)
  {
    var pre, post := areas[..i], areas[i + 1..];
    assert areas == (pre + [areas[i]]) + post;
    FreedAppend(pre + [areas[i]], post, Some(skip), pt);
    FreedAppend(pre, [areas[i]], Some(skip), pt);
    FreedSkippedArea(areas[i], skip, pt);
  }

  /** A lone area holding the skipped page frees nothing. */
  lemma FreedSkippedArea(a: Range, skip: Vpn, pt: PageTable)
    requires a.Contains(skip)
    ensures Freed([a], Some(skip), pt) == []
  {
    assert Freed([a], Some(skip), pt) == Freed([], Some(skip), pt) + FreeStep(a, Some(skip), pt);
  }

  /** `cloneself` copies an area when it is non-empty and its first page is mapped. */
  predicate Clonable(a: Range, pt: PageTable) {
    a.Count() > 0 && a.start in pt && IsValid(pt[a.start])
  }

  /** The areas `cloneself` recreates, in order. */
  function Cloned(areas: seq<Range>, pt: PageTable): seq<Range>
    decreases |areas|
  {
    if areas == [] then []
    else Cloned(areas[..|areas| - 1], pt) + (if Clonable(areas[|areas| - 1], pt) then [areas[|areas| - 1]] else [])
  }

  /** `AddressSpace { areas, manager }`, the manager reduced to its page table. */
  class AddressSpace {
    var areas: seq<Range>
    var pt: PageTable
    /** Whether the root table page is still held (`drop_root` releases it). */
    var rootLive: bool

    /** `new()`: no areas and an empty root table. */
    constructor ()
      ensures areas == [] && pt == map[] && rootLive
    {
      areas := [];
      pt := map[];
      rootLive := true;
    }

    /**
     * `map_extern(range, pbase, flags)`: page `range.start + i` maps to
     * `pbase + i` with `flags`, and the range joins `areas`. The range must be
     * non-empty and its pages not yet validly mapped (both asserted).
     */
    method MapExtern(range: Range, pbase: Ppn, flags: Flags)
      requires range.start < range.end
      requires Unmapped(pt, range)
      modifies this
      ensures areas == old(areas) + [range]
      ensures pt == Install(old(pt), range, pbase, flags)
      ensures rootLive == old(rootLive)
    {
      var count := range.end - range.start;
      var i := 0;
      while i < count
        invariant 0 <= i <= count
        invariant pt == Install(old(pt), Range(range.start, range.start + i), pbase, flags)
        invariant areas == old(areas) && rootLive == old(rootLive)
      {
        pt := pt[range.start + i := Pte(pbase + i, flags)];
        i := i + 1;
      }
      assert Range(range.start, range.start + count) == range;
      areas := areas + [range];
    }

    /**
     * `map(range, data, offset, flags)`: fresh pages at `pbase` receive
     * `offset` zeros, `data`, and zeros to the end, and are then mapped as
     * `map_extern` does. The pages must hold `offset + |data|` bytes.
     */
    method Map(range: Range, data: seq<u8>, offset: nat, flags: Flags, mem: array<u8>, pbase: Ppn)
      requires range.start < range.end
      requires (range.end - range.start) * PAGE_SIZE >= |data| + offset
      requires (pbase + (range.end - range.start)) * PAGE_SIZE <= mem.Length
      requires Unmapped(pt, range)
      modifies this, mem
      ensures areas == old(areas) + [range]
      ensures pt == Install(old(pt), range, pbase, flags)
      ensures Loaded(mem[..], pbase, range.Count(), data, offset)
      ensures forall a :: 0 <= a < mem.Length && !(pbase * PAGE_SIZE <= a < (pbase + range.Count()) * PAGE_SIZE) ==>
        mem[a] == old(mem[a])
      ensures rootLive == old(rootLive)
    {
      var base := pbase * PAGE_SIZE;
      var size := (range.end - range.start) * PAGE_SIZE;
      assert base + size == (pbase + (range.end - range.start)) * PAGE_SIZE;
      forall a | base <= a < base + offset {
        mem[a] := 0;
      }
      forall a | base + offset <= a < base + offset + |data| {
        mem[a] := data[a - base - offset];
      }
      forall a | base + offset + |data| <= a < base + size {
        mem[a] := 0;
      }
      MapExtern(range, pbase, flags);
    }

    /**
     * `copy_leaf_pte_from(src, vpn)`: the entry `src` holds for `vpn` is
     * installed here when it is valid; otherwise nothing changes.
     */
    method CopyLeafPteFrom(src: AddressSpace, vpn: Vpn)
      requires src != this
      modifies this
      ensures vpn in src.pt && IsValid(src.pt[vpn]) ==> pt == old(pt)[vpn := src.pt[vpn]]
      ensures !(vpn in src.pt && IsValid(src.pt[vpn])) ==> pt == old(pt)
      ensures areas == old(areas) && rootLive == old(rootLive)
    {
      if vpn in src.pt && IsValid(src.pt[vpn]) {
        pt := pt[vpn := src.pt[vpn]];
      }
    }

    /**
     * `free_allocated_pages_and_root(skip)`: takes `areas`, asks the manager
     * to deallocate the pages of each area that does not hold `skip`, is
     * non-empty and has a valid first page, then releases the root. Returns
     * the deallocation requests in order.
     */
    method FreeAllocatedPagesAndRoot(skip: Option<Vpn>) returns (calls: seq<(Pte, nat)>)
      modifies this
      ensures areas == [] && !rootLive && pt == old(pt)
      ensures calls == Freed(old(areas), skip, pt)
    {
      var taken := areas;
      areas := [];
      calls := [];
      var i := 0;
      while i < |taken|
        invariant 0 <= i <= |taken|
        invariant calls == Freed(taken[..i], skip, pt)
        invariant areas == [] && pt == old(pt)
      {
        var range := taken[i];
        assert taken[..i + 1][..i] == taken[..i];
        if skip.Some? && range.start <= skip.value < range.end {
          i := i + 1;
          continue;
        }
        var count := if range.end >= range.start then range.end - range.start else 0;
        if count == 0 {
          i := i + 1;
          continue;
        }
        if range.start in pt && IsValid(pt[range.start]) {
          calls := calls + [(pt[range.start], count)];
        }
        i := i + 1;
      }
      assert taken[..i] == taken;
      rootLive := false;
    }
  }

  /** Every area of `areas` that is clonable has its own fresh destination pages. */
  predicate CloneTargets(areas: seq<Range>, pt: PageTable, bases: seq<Ppn>, memLength: nat) {
    |bases| == |areas| &&
    forall i :: 0 <= i < |areas| && Clonable(areas[i], pt) ==>
      (pt[areas[i].start].ppn + areas[i].Count()) * PAGE_SIZE <= memLength &&
      (bases[i] + areas[i].Count()) * PAGE_SIZE <= memLength
  }

  /** The byte ranges `cloneself` reads and writes never overlap one another. */
  predicate CloneDisjoint(areas: seq<Range>, pt: PageTable, bases: seq<Ppn>)
    requires |bases| == |areas|
  {
    forall i, j :: 0 <= i < |areas| && 0 <= j < |areas| && Clonable(areas[i], pt) && Clonable(areas[j], pt) ==>
      (bases[i] + areas[i].Count() <= pt[areas[j].start].ppn ||
       pt[areas[j].start].ppn + areas[j].Count() <= bases[i]) &&
      (i != j ==> bases[i] + areas[i].Count() <= bases[j] || bases[j] + areas[j].Count() <= bases[i]) &&
      (i != j ==> areas[i].end <= areas[j].start || areas[j].end <= areas[i].start)
  }

  /** Byte `a` lies in the pages of `r`'s length starting at page `base`. */
  predicate InDst(a: nat, base: Ppn, r: Range) {
    base * PAGE_SIZE <= a < (base + r.Count()) * PAGE_SIZE
  }

  /** The first page of a clonable area: where its contents are read from. */
  function SrcPpn(areas: seq<Range>, pt: PageTable, j: nat): Ppn
    requires j < |areas| && Clonable(areas[j], pt)
  {
    pt[areas[j].start].ppn
  }

  /** Page v of clonable area j is mapped in `dpt` to its new page with the area's flags. */
  ghost predicate PageCloned(dpt: PageTable, areas: seq<Range>, pt: PageTable, bases: seq<Ppn>, j: nat, v: Vpn)
    requires |bases| == |areas| && j < |areas| && Clonable(areas[j], pt) && areas[j].Contains(v)
  {
    v in dpt && dpt[v] == Pte(bases[j] + (v - areas[j].start), pt[areas[j].start].flags)
  }

  /** The clonable areas before n are mapped in `dpt` to their new pages with their flags. */
  ghost predicate PagesCloned(dpt: PageTable, areas: seq<Range>, pt: PageTable, bases: seq<Ppn>, n: nat)
    requires |bases| == |areas| && n <= |areas|
  {
    forall j: nat, v: Vpn :: j < n && Clonable(areas[j], pt) && areas[j].Contains(v) ==>
      PageCloned(dpt, areas, pt, bases, j, v)
  }

  /** The clonable areas from n on are still unmapped in `dpt`. */
  ghost predicate TargetsFree(dpt: PageTable, areas: seq<Range>, pt: PageTable, n: nat)
    requires n <= |areas|
  {
    forall j :: n <= j < |areas| && Clonable(areas[j], pt) ==> Unmapped(dpt, areas[j])
  }

  /** Byte a of the new pages of clonable area j holds what its source byte held in `m0`. */
  ghost predicate ByteCloned(m: seq<u8>, m0: seq<u8>, areas: seq<Range>, pt: PageTable, bases: seq<Ppn>, j: nat, a: nat)
    requires |bases| == |areas| && j < |areas| && Clonable(areas[j], pt) && a < |m|
  {
    0 <= a - bases[j] * PAGE_SIZE + SrcPpn(areas, pt, j) * PAGE_SIZE < |m0| &&
    m[a] == m0[a - bases[j] * PAGE_SIZE + SrcPpn(areas, pt, j) * PAGE_SIZE]
  }

  /** The new pages of the clonable areas before n hold what their sources held in `m0`. */
  ghost predicate BytesCloned(m: seq<u8>, m0: seq<u8>, areas: seq<Range>, pt: PageTable, bases: seq<Ppn>, n: nat)
    requires |bases| == |areas| && n <= |areas|
  {
    forall j: nat, a: nat :: j < n && Clonable(areas[j], pt) && InDst(a, bases[j], areas[j]) && a < |m| ==>
      ByteCloned(m, m0, areas, pt, bases, j, a)
  }

  /** The sources of the clonable areas from n on are as in `m0`. */
  ghost predicate SourcesIntact(m: seq<u8>, m0: seq<u8>, areas: seq<Range>, pt: PageTable, n: nat)
    requires n <= |areas| && |m| == |m0|
  {
    forall j, a: nat :: (n <= j < |areas| && Clonable(areas[j], pt) &&
                         InDst(a, SrcPpn(areas, pt, j), areas[j]) && a < |m|) ==> m[a] == m0[a]
  }

  /** Mapping clonable area n keeps the earlier mappings and the later targets free. */
  lemma {:induction false} PagesStep(dpt: PageTable, areas: seq<Range>, pt: PageTable, bases: seq<Ppn>, n: nat)
    requires |bases| == |areas| && n < |areas| && CloneDisjoint(areas, pt, bases)
    requires PagesCloned(dpt, areas, pt, bases, n) && TargetsFree(dpt, areas, pt, n)
    ensures Clonable(areas[n], pt) ==>
      var dpt' := Install(dpt, areas[n], bases[n], pt[areas[n].start].flags);
      PagesCloned(dpt', areas, pt, bases, n + 1) && TargetsFree(dpt', areas, pt, n + 1)
    ensures !Clonable(areas[n], pt) ==>
      PagesCloned(dpt, areas, pt, bases, n + 1) && TargetsFree(dpt, areas, pt, n + 1)
  {
    if Clonable(areas[n], pt) {
      var r := areas[n];
      var dpt' := Install(dpt, r, bases[n], pt[r.start].flags);
      forall j: nat, v: Vpn | j < n + 1 && Clonable(areas[j], pt) && areas[j].Contains(v)
        ensures PageCloned(dpt', areas, pt, bases, j, v)
      {
        InstallAt(dpt, r, bases[n], pt[r.start].flags, v);
        if j < n {
          assert PageCloned(dpt, areas, pt, bases, j, v);
          assert !r.Contains(v);
        }
      }
      forall j | n + 1 <= j < |areas| && Clonable(areas[j], pt)
        ensures Unmapped(dpt', areas[j])
      {
        assert Unmapped(dpt, areas[j]);
        forall v: Vpn | areas[j].Contains(v) && v in dpt'
          ensures !IsValid(dpt'[v])
        {
          InstallAt(dpt, r, bases[n], pt[r.start].flags, v);
          assert !r.Contains(v);
        }
      }
    } else {
      forall j: nat, v: Vpn | j < n + 1 && Clonable(areas[j], pt) && areas[j].Contains(v)
        ensures PageCloned(dpt, areas, pt, bases, j, v)
      {
        assert j < n;
      }
    }
  }

  /** Page v lies in none of the clonable areas before n. */
  predicate OutsideAreas(areas: seq<Range>, pt: PageTable, n: nat, v: Vpn)
    requires n <= |areas|
  {
    forall j :: 0 <= j < n && Clonable(areas[j], pt) ==> !areas[j].Contains(v)
  }

  /** `dpt` maps every page outside the clonable areas before n as `dpt0` does. */
  ghost predicate OthersKept(dpt: PageTable, dpt0: PageTable, areas: seq<Range>, pt: PageTable, n: nat)
    requires n <= |areas|
  {
    forall v :: OutsideAreas(areas, pt, n, v) ==> (v in dpt <==> v in dpt0) && (v in dpt0 ==> dpt[v] == dpt0[v])
  }

  /** Mapping clonable area n touches no page outside the areas up to n. */
  lemma {:induction false} OthersStep(dpt: PageTable, dpt0: PageTable, areas: seq<Range>, pt: PageTable,
                                      bases: seq<Ppn>, n: nat)
    requires |bases| == |areas| && n < |areas| && OthersKept(dpt, dpt0, areas, pt, n)
    ensures Clonable(areas[n], pt) ==>
      OthersKept(Install(dpt, areas[n], bases[n], pt[areas[n].start].flags), dpt0, areas, pt, n + 1)
    ensures !Clonable(areas[n], pt) ==> OthersKept(dpt, dpt0, areas, pt, n + 1)
  {
    forall v | OutsideAreas(areas, pt, n + 1, v)
      ensures OutsideAreas(areas, pt, n, v)
    {
    }
    if Clonable(areas[n], pt) {
      var r := areas[n];
      var dpt' := Install(dpt, r, bases[n], pt[r.start].flags);
      forall v | OutsideAreas(areas, pt, n + 1, v)
        ensures (v in dpt' <==> v in dpt0) && (v in dpt0 ==> dpt'[v] == dpt0[v])
      {
        assert !r.Contains(v);
        InstallAt(dpt, r, bases[n], pt[r.start].flags, v);
      }
    }
  }

  /** Byte a lies in none of the new pages of the clonable areas before n. */
  predicate OutsideTargets(areas: seq<Range>, pt: PageTable, bases: seq<Ppn>, n: nat, a: nat)
    requires |bases| == |areas| && n <= |areas|
  {
    forall j :: 0 <= j < n && Clonable(areas[j], pt) ==> !InDst(a, bases[j], areas[j])
  }

  /** `m` holds what `m0` held at every byte outside the new pages of the clonable areas before n. */
  ghost predicate BytesKept(m: seq<u8>, m0: seq<u8>, areas: seq<Range>, pt: PageTable, bases: seq<Ppn>, n: nat)
    requires |bases| == |areas| && n <= |areas| && |m| == |m0|
  {
    forall a: nat :: a < |m| && OutsideTargets(areas, pt, bases, n, a) ==> m[a] == m0[a]
  }

  /** Copying clonable area n writes no byte outside the new pages up to n. */
  lemma {:induction false} KeptStep(m: seq<u8>, m': seq<u8>, m0: seq<u8>, areas: seq<Range>, pt: PageTable,
                                    bases: seq<Ppn>, n: nat)
    requires |bases| == |areas| && n < |areas| && |m| == |m0| == |m'|
    requires BytesKept(m, m0, areas, pt, bases, n)
    requires Clonable(areas[n], pt) ==> CopiedPages(m', m, SrcPpn(areas, pt, n), bases[n], areas[n].Count())
    requires !Clonable(areas[n], pt) ==> m' == m
    ensures BytesKept(m', m0, areas, pt, bases, n + 1)
  {
    forall a: nat | a < |m'| && OutsideTargets(areas, pt, bases, n + 1, a)
      ensures m'[a] == m0[a]
    {
      assert OutsideTargets(areas, pt, bases, n, a);
      if Clonable(areas[n], pt) {
        assert !InDst(a, bases[n], areas[n]);
      }
    }
  }

  /** Copying clonable area n keeps the earlier copies and the later sources. */
  lemma {:induction false} BytesStep(m: seq<u8>, m': seq<u8>, m0: seq<u8>, areas: seq<Range>, pt: PageTable,
                                     bases: seq<Ppn>, n: nat)
    requires |bases| == |areas| && n < |areas| && CloneDisjoint(areas, pt, bases)
    requires |m| == |m0| == |m'|
    requires BytesCloned(m, m0, areas, pt, bases, n) && SourcesIntact(m, m0, areas, pt, n)
    requires Clonable(areas[n], pt) ==> CopiedPages(m', m, SrcPpn(areas, pt, n), bases[n], areas[n].Count())
    requires !Clonable(areas[n], pt) ==> m' == m
    ensures BytesCloned(m', m0, areas, pt, bases, n + 1) && SourcesIntact(m', m0, areas, pt, n + 1)
  {
    if Clonable(areas[n], pt) {
      forall j: nat, a: nat | j < n + 1 && Clonable(areas[j], pt) && InDst(a, bases[j], areas[j]) && a < |m'|
        ensures ByteCloned(m', m0, areas, pt, bases, j, a)
      {
        if j < n {
          assert ByteCloned(m, m0, areas, pt, bases, j, a);
          assert !InDst(a, bases[n], areas[n]);
        } else {
          var copied := m'[a];
          var b := a - bases[n] * PAGE_SIZE + SrcPpn(areas, pt, n) * PAGE_SIZE;
          assert copied == m[b];
          assert InDst(b, SrcPpn(areas, pt, n), areas[n]);
        }
      }
      forall j, a: nat | (n + 1 <= j < |areas| && Clonable(areas[j], pt) &&
                          InDst(a, SrcPpn(areas, pt, j), areas[j]) && a < |m'|)
        ensures m'[a] == m0[a]
      {
        assert !InDst(a, bases[n], areas[n]);
      }
    } else {
      forall j: nat, a: nat | j < n + 1 && Clonable(areas[j], pt) && InDst(a, bases[j], areas[j]) && a < |m'|
        ensures ByteCloned(m', m0, areas, pt, bases, j, a)
      {
        assert ByteCloned(m, m0, areas, pt, bases, j, a);
      }
    }
  }

  /**
   * `self.cloneself(new)`: for every non-empty area whose first page is
   * mapped, fresh pages at `bases[i]` get a byte copy of the area's pages and
   * are mapped at the same range with the same flags. Other areas are skipped.
   */
  method Cloneself(self: AddressSpace, dst: AddressSpace, mem: array<u8>, bases: seq<Ppn>)
    requires self != dst
    requires CloneTargets(self.areas, self.pt, bases, mem.Length)
    requires CloneDisjoint(self.areas, self.pt, bases)
    requires TargetsFree(dst.pt, self.areas, self.pt, 0)
    modifies dst, mem
    ensures dst.areas == old(dst.areas) + Cloned(self.areas, self.pt)
    ensures PagesCloned(dst.pt, self.areas, self.pt, bases, |self.areas|)
    ensures BytesCloned(mem[..], old(mem[..]), self.areas, self.pt, bases, |self.areas|)
    ensures OthersKept(dst.pt, old(dst.pt), self.areas, self.pt, |self.areas|)
    ensures BytesKept(mem[..], old(mem[..]), self.areas, self.pt, bases, |self.areas|)
    ensures dst.rootLive == old(dst.rootLive)
  {
    var areas := self.areas;
    var pt := self.pt;
    ghost var m0 := mem[..];
    var i := 0;
    while i < |areas|
      invariant 0 <= i <= |areas|
      invariant self.areas == areas && self.pt == pt
      invariant dst.areas == old(dst.areas) + Cloned(areas[..i], pt)
      invariant PagesCloned(dst.pt, areas, pt, bases, i) && TargetsFree(dst.pt, areas, pt, i)
      invariant BytesCloned(mem[..], m0, areas, pt, bases, i) && SourcesIntact(mem[..], m0, areas, pt, i)
      invariant OthersKept(dst.pt, old(dst.pt), areas, pt, i) && BytesKept(mem[..], m0, areas, pt, bases, i)
      invariant dst.rootLive == old(dst.rootLive)
    {
      assert areas[..i + 1][..i] == areas[..i];
      ghost var before := mem[..];
      PagesStep(dst.pt, areas, pt, bases, i);
      OthersStep(dst.pt, old(dst.pt), areas, pt, bases, i);
      var range := areas[i];
      if !Clonable(range, pt) {
        BytesStep(before, before, m0, areas, pt, bases, i);
        KeptStep(before, before, m0, areas, pt, bases, i);
        i := i + 1;
        continue;
      }
      var e := pt[range.start];
      CopyArea(mem, e.ppn, bases[i], range.Count());
      BytesStep(before, mem[..], m0, areas, pt, bases, i);
      KeptStep(before, mem[..], m0, areas, pt, bases, i);
      dst.MapExtern(range, bases[i], e.flags);
      i := i + 1;
    }
    assert areas[..i] == areas;
  }

  /** `m'` is `m` with `count` pages copied from page `src` to page `dst`. */
  ghost predicate CopiedPages(m': seq<u8>, m: seq<u8>, src: Ppn, dst: Ppn, count: nat) {
    |m'| == |m| &&
    (forall a: nat :: dst * PAGE_SIZE <= a < (dst + count) * PAGE_SIZE && a < |m| ==>
       0 <= a - dst * PAGE_SIZE + src * PAGE_SIZE < |m| && m'[a] == m[a - dst * PAGE_SIZE + src * PAGE_SIZE]) &&
    (forall a: nat :: a < |m| && !(dst * PAGE_SIZE <= a < (dst + count) * PAGE_SIZE) ==> m'[a] == m[a])
  }

  /** `copy_nonoverlapping` of `count` pages from `src` to `dst`. */
  method CopyArea(mem: array<u8>, src: Ppn, dst: Ppn, count: nat)
    requires (src + count) * PAGE_SIZE <= mem.Length && (dst + count) * PAGE_SIZE <= mem.Length
    requires src + count <= dst || dst + count <= src
    modifies mem
    ensures CopiedPages(mem[..], old(mem[..]), src, dst, count)
  {
    forall a | dst * PAGE_SIZE <= a < (dst + count) * PAGE_SIZE {
      mem[a] := mem[a - dst * PAGE_SIZE + src * PAGE_SIZE];
    }
  }
}
