/**
 * The ch4 kernel: every app is loaded from its ELF file into an address
 * space of its own, and the loaded processes run one after another. The
 * process vector is the state; the process at index 0 always runs, through
 * the portal, until it leaves the vector.
 */
module Ch4 {
  import opened Words
  import opened Wrappers
  import opened KernelContext
  import opened KernelVm
  import opened ElfLoad
  import opened SyscallKernel
  import opened Syscall
  import opened ChapterShared

  /** `USER_STACK_PAGES`. */
  const USER_STACK_PAGES: nat := 2
  /** `PORTAL_VPN`: the portal page, at 256 MiB. */
  const PORTAL_VPN: nat := 0x1_0000
  /** `TOP_OF_USER_STACK_VPN`: the stack ends just below the portal. */
  const TOP_OF_USER_STACK_VPN: nat := 0x1_0000
  /**
   * A stack top VPN the loaders can use: room for the stack pages below it,
   * and its address fits a usize.
   */
  predicate StackFits(top: nat) {
    USER_STACK_PAGES <= top && top * PAGE_SIZE < USIZE_LIMIT
  }

  /** `(top << 12) - 16`: the 16-byte aligned initial sp below stack page `top`. */
  function StackTop(top: nat): (sp: usize)
    requires StackFits(top)
    ensures sp % 16 == 0 && sp + 16 == top * PAGE_SIZE
  {
    top * PAGE_SIZE - 16
  }

  /** `Process`: the user context, the user part of the address space, and the stack top. */
  datatype Process = Process(context: Context, image: Image, stackTop: usize)

  /** The stack pages below `top`: [top - 2, top). */
  predicate InStack(v: nat, top: nat) {
    top - USER_STACK_PAGES <= v < top
  }

  /**
   * What `load_elf` (ch4, ch5) and `Process::from_elf` (ch6) yield. With
   * `fromElf`, the ch6 loader (which ch8 shares): PT_LOAD segments of
   * memory size 0 are passed over, and a segment whose bytes meet a page
   * mapped without W fails the load, where ch4's loader drops those bytes.
   * `top` is the VPN just above the stack. Nothing for a file that is not a
   * RISC-V executable, whose program headers do not parse, or whose second
   * pass fails; otherwise the image of both passes as written with the two
   * stack pages added, and a user context at the entry point with sp at the
   * stack top.
   */
  function Loaded(elf: Elf, data: seq<u8>, fromElf: bool, top: nat): (r: Option<Process>)
    requires FileFits(elf.segments, data) && StackFits(top)
  {
    if !Accepted(elf) || HasUnparsable(elf.segments) then None
    else
      match BuildAsWritten(elf.segments, |elf.segments|, data, fromElf, fromElf)
      case None => None
      case Some(img) =>
        match MapStack(img, top - USER_STACK_PAGES, USER_STACK_PAGES)
        case None => None
        case Some(withStack) => Some(Process(UserContext(elf.entry).WithSp(StackTop(top)), withStack, StackTop(top)))
  }

  /**
   * The loaded process: it exists exactly for an accepted, parseable file
   * whose segments leave the stack pages free and, for ch6's loader, copy no
   * bytes onto a page mapped without W; it starts in user mode at the entry
   * with sp at the stack top and every other register zero; the stack pages
   * are zero and VRWU; every other mapped page is a covered one, with the
   * flags of its segments' union of permissions. Without a read-only
   * overlap each such page is the corrected pass's page, so every byte is
   * that of the last segment whose file bytes reach it.
   */
  lemma LoadedProcess(elf: Elf, data: seq<u8>, fromElf: bool, top: nat, v: nat, a: nat)
    requires FileFits(elf.segments, data) && StackFits(top)
    ensures Loaded(elf, data, fromElf, top).Some? <==>
      && Accepted(elf) && !HasUnparsable(elf.segments)
      && !(fromElf && ReadOnlyOverlap(elf.segments, |elf.segments|, fromElf))
      && forall j, w :: 0 <= j < |elf.segments| && InStack(w, top) ==> !Covers(elf.segments[j], w, fromElf)
    ensures Loaded(elf, data, fromElf, top).Some? ==>
      var p := Loaded(elf, data, fromElf, top).value;
      var img := Build(elf.segments, |elf.segments|, data, fromElf);
      && p.context.Valid() && p.context.Pc() == elf.entry && p.context.Sp() == StackTop(top) == p.stackTop
      && !p.context.supervisor && p.context.interrupt
      && (forall n :: 1 <= n <= 31 && n != 2 ==> p.context.X(n) == 0)
      && (v in p.image <==> InStack(v, top) || exists j :: 0 <= j < |elf.segments| && Covers(elf.segments[j], v, fromElf))
      && (InStack(v, top) ==> p.image[v] == UserPage({V, R, W, U}, ZeroPage()))
      && (!InStack(v, top) && v in p.image ==> p.image[v].flags == PageFlags(elf.segments, v, fromElf))
      && (!ReadOnlyOverlap(elf.segments, |elf.segments|, fromElf) ==>
            && (!InStack(v, top) && v in p.image ==> v in img && p.image[v] == img[v])
            && (a / PAGE_SIZE in img ==>
                  a / PAGE_SIZE in p.image && ByteAt(p.image, a) == Expected(elf.segments, |elf.segments|, a, data, fromElf)))
  {
    var segs := elf.segments;
    LoadedImage(segs, data, fromElf, v, a);
    BuildAsWrittenPages(segs, |segs|, data, fromElf, fromElf, v);
    UnionIsAny(segs, |segs|, v, fromElf);
    if !ReadOnlyOverlap(segs, |segs|, fromElf) {
      BuildAsWrittenAgrees(segs, |segs|, data, fromElf, fromElf);
    } else if fromElf {
      BuildAsWrittenFails(segs, |segs|, data, fromElf);
    }
    var built := BuildAsWritten(segs, |segs|, data, fromElf, fromElf);
    if Accepted(elf) && !HasUnparsable(segs) && built.Some? {
      StackFree(segs, data, fromElf, top, built.value);
    }
  }

  /** The stack pages can be mapped exactly when no segment covers them. */
  lemma StackFree(segs: seq<Segment>, data: seq<u8>, fromElf: bool, top: nat, img: Image)
    requires FileFits(segs, data) && StackFits(top)
    requires BuildAsWritten(segs, |segs|, data, fromElf, fromElf) == Some(img)
    ensures MapStack(img, top - USER_STACK_PAGES, USER_STACK_PAGES).Some? <==>
      forall j, w :: 0 <= j < |segs| && InStack(w, top) ==> !Covers(segs[j], w, fromElf)
  {
    var lo := top - USER_STACK_PAGES;
    forall j, w | 0 <= j < |segs| && InStack(w, top) && Covers(segs[j], w, fromElf)
      ensures MapStack(img, lo, USER_STACK_PAGES).None?
    {
      BuildAsWrittenPages(segs, |segs|, data, fromElf, fromElf, w);
      UnionIsAny(segs, |segs|, w, fromElf);
    }
    if MapStack(img, lo, USER_STACK_PAGES).None? {
      var w :| lo <= w < lo + USER_STACK_PAGES && w in img;
      BuildAsWrittenPages(segs, |segs|, data, fromElf, fromElf, w);
      UnionIsAny(segs, |segs|, w, fromElf);
      var j :| 0 <= j < |segs| && Covers(segs[j], w, fromElf);
      assert InStack(w, top);
    }
  }

  /** `load_elf` / `from_elf`: the header check, both page passes and the stack. */
  method LoadElf(elf: Elf, data: seq<u8>, fromElf: bool, top: nat) returns (r: Option<Process>)
    requires FileFits(elf.segments, data) && StackFits(top)
    ensures r == Loaded(elf, data, fromElf, top)
  {
    if !Accepted(elf) {
      return None;
    }
    var img := LoadSegments(elf.segments, data, fromElf, fromElf);
    if img.None? {
      return None;
    }
    var withStack := MapStack(img.value, top - USER_STACK_PAGES, USER_STACK_PAGES);
    if withStack.None? {
      return None;
    }
    var context := UserContext(elf.entry).WithSp(StackTop(top));
    return Some(Process(context, withStack.value, StackTop(top)));
  }

  /** Every app file fits the bytes it comes with. */
  predicate AllFit(apps: seq<(Elf, seq<u8>)>) {
    forall i :: 0 <= i < |apps| ==> FileFits(apps[i].0.segments, apps[i].1)
  }

  /** The processes the boot loop keeps: the apps that load, in order. */
  function LoadAll(apps: seq<(Elf, seq<u8>)>): seq<Process>
    requires AllFit(apps)
  {
    if |apps| == 0 then []
    else
      var rest := LoadAll(apps[..|apps| - 1]);
      match Loaded(apps[|apps| - 1].0, apps[|apps| - 1].1, false, TOP_OF_USER_STACK_VPN)
      case None => rest
      case Some(p) => rest + [p]
  }

  /** Every kept process is the load of some app, and the kernel has nothing to run only when no app loads. */
  lemma {:induction false} LoadAllKeeps(apps: seq<(Elf, seq<u8>)>)
    requires AllFit(apps)
    ensures |LoadAll(apps)| <= |apps|
    ensures forall p :: p in LoadAll(apps) ==> exists i :: 0 <= i < |apps| && Loaded(apps[i].0, apps[i].1, false, TOP_OF_USER_STACK_VPN) == Some(p)
    ensures |LoadAll(apps)| == 0 <==> forall i :: 0 <= i < |apps| ==> Loaded(apps[i].0, apps[i].1, false, TOP_OF_USER_STACK_VPN).None?
  {
    if |apps| > 0 {
      var init := apps[..|apps| - 1];
      LoadAllKeeps(init);
      assert forall i :: 0 <= i < |init| ==> init[i] == apps[i];
    }
  }

  /**
   * A trap that removes the running process: exit, an unsupported syscall,
   * and every trap but a syscall and a breakpoint (a timer interrupt too).
   */
  predicate Removes(c: Context, cause: Cause, result: SyscallResult)
    requires c.Valid()
  {
    match cause
    case UserEnvCall => result.Unsupported? || c.A(7) == EXIT
    case Breakpoint => false
    case _ => true
  }

  /**
   * The trap rules on the process vector, with `c` the running process's
   * context after the trap: a removing trap drops process 0; a finished
   * syscall writes its value to a0 and steps past the `ecall`; a breakpoint
   * steps past the `ebreak`. No other process is touched.
   */
  function Outcome(ps: seq<Process>, c: Context, cause: Cause, result: SyscallResult): (r: seq<Process>)
    requires |ps| > 0 && c.Valid()
    ensures Removes(c, cause, result) ==> r == ps[1..]
    ensures !Removes(c, cause, result) ==>
      && |r| == |ps| && r[1..] == ps[1..]
      && r[0].image == ps[0].image && r[0].stackTop == ps[0].stackTop
      && r[0].context.Valid() && r[0].context.sepc == WrappingAdd(c.sepc, 4)
      && r[0].context.supervisor == c.supervisor && r[0].context.interrupt == c.interrupt
    ensures cause == Breakpoint ==> r[0].context.x == c.x
    ensures cause == UserEnvCall && result.Done? && c.A(7) != EXIT ==>
      && r[0].context.A(0) == AsUsize(result.value)
      && forall n :: 1 <= n <= 31 && n != 10 ==> r[0].context.X(n) == c.X(n)
  {
    if Removes(c, cause, result) then ps[1..]
    else if cause == Breakpoint then ps[0 := ps[0].(context := c.MoveNext())]
    else ps[0 := ps[0].(context := c.WithA(0, AsUsize(result.value)).MoveNext())]
  }

  /**
   * The process vector keeps the apps in load order and runs them one at a
   * time: a step either finishes the first one or leaves the order as it
   * was, so app k runs only after apps 0..k-1 have left.
   */
  lemma OutcomeKeepsOrder(ps: seq<Process>, c: Context, cause: Cause, result: SyscallResult)
    requires |ps| > 0 && c.Valid()
    ensures var r := Outcome(ps, c, cause, result);
      (r == ps[1..]) != (|r| == |ps| && r[1..] == ps[1..])
  {
  }

  /** The ch4 kernel state: the process vector. */
  class Kernel {
    var processes: seq<Process>

    /** The boot loop: every app that loads is pushed, in app order. */
    constructor Boot(apps: seq<(Elf, seq<u8>)>)
      requires AllFit(apps)
      ensures processes == LoadAll(apps)
    {
      var ps: seq<Process> := [];
      var i := 0;
      while i < |apps|
        invariant 0 <= i <= |apps|
        invariant ps == LoadAll(apps[..i])
      {
        assert apps[..i + 1][..i] == apps[..i];
        var p := LoadElf(apps[i].0, apps[i].1, false, TOP_OF_USER_STACK_VPN);
        if p.Some? {
          ps := ps + [p.value];
        }
        i := i + 1;
      }
      assert apps[..i] == apps;
      processes := ps;
    }

    /** The loop's exit test: nothing is left to run. */
    predicate Finished()
      reads this
    {
      |processes| == 0
    }

    /**
     * One turn of the loop for process 0. The portal cache gets the user
     * satp, pc, a0 and flags (`Launch` is the context `execute` then
     * starts from); `trapped` is the context the trap hands back, whose
     * flags are replaced by the ones saved before the launch; then the trap
     * rules apply.
     */
    method Step(cache: PortalCache, satp: usize, trapped: Context, cause: Cause, result: SyscallResult)
      requires |processes| > 0 && processes[0].context.Valid() && trapped.Valid()
      modifies this, cache
      ensures var orig := old(processes[0].context);
        && cache.satp == satp && cache.sepc == orig.Pc() && cache.a0 == orig.A(0)
        && cache.sstatus == CacheStatus(orig.supervisor, orig.interrupt)
        && processes == Outcome(old(processes), Restore(trapped, orig), cause, result)
    {
      var orig := processes[0].context;
      FillCache(cache, satp, orig);
      var c := Restore(trapped, orig);
      processes := Outcome(processes, c, cause, result);
    }
  }
}
