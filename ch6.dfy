/**
 * The ch6 kernel: processes as in ch5, now loaded from the easy-fs image
 * and holding a file-descriptor table. A process is an object whose
 * context, address space and stack top `exec` replaces in place; `fork`
 * makes a new one with a copy of everything and a pid other than 0.
 */
module Ch6 {
  import opened Words
  import opened Wrappers
  import opened KernelContext
  import opened KernelVm
  import opened ElfLoad
  import opened EfsLayout
  import opened VfsHandle
  import opened Syscall
  import opened SyscallKernel
  import opened TaskManage
  import opened ChapterShared
  import opened ChapterFd
  import Ch4

  /** `PORTAL_VPN`: the last page of the 39-bit user half. */
  const PORTAL_VPN: nat := 0x7FF_FFFF
  /** `TOP_OF_USER_STACK_VPN`: the stack ends just below the portal page. */
  const TOP_OF_USER_STACK_VPN: nat := PORTAL_VPN

  /**
   * `Process`: its context, the user part of its address space, its stack
   * top and its descriptor table. The pid is the key it is stored under in
   * the process manager.
   */
  class Process<H> {
    var context: Context
    var image: Image
    var stackTop: usize
    const fds: FdTable<H>

    /** The loaded state of the process as a value. */
    function Value(): Ch4.Process
      reads this
    {
      Ch4.Process(context, image, stackTop)
    }

    /** A process from a loaded image, with the three standard streams open. */
    constructor Of(p: Ch4.Process, stdin: H, stdout: H, stddebug: H)
      ensures Value() == p && fresh(fds)
      ensures fds.table == [Some(stdin), Some(stdout), Some(stddebug)]
    {
      context := p.context;
      image := p.image;
      stackTop := p.stackTop;
      fds := new FdTable.Stdio(stdin, stdout, stddebug);
    }

    /**
     * `fork`'s child: the parent's context with a0 = 0, a copy of its
     * address space, the same stack top and a copy of every descriptor.
     */
    constructor ForkOf(parent: Process<H>)
      requires parent.context.Valid()
      ensures context == parent.context.WithA(0, 0)
      ensures image == parent.image && stackTop == parent.stackTop
      ensures fresh(fds) && fds.table == parent.fds.table
    {
      context := parent.context.WithA(0, 0);
      image := parent.image;
      stackTop := parent.stackTop;
      fds := new FdTable.Clone(parent.fds);
    }

    /**
     * `fork`: the child process and its pid, drawn by `alloc_pid_nonzero`.
     * The child sees fork return 0; nothing else tells it from its parent.
     */
    method Fork(counter: IdCounter) returns (child: Process<H>, pid: ProcId)
      requires context.Valid()
      modifies counter
      ensures fresh(child) && fresh(child.fds) && pid.v != 0
      ensures old(counter.next) != 0 ==> pid.v == old(counter.next)
      ensures child.context == context.WithA(0, 0)
      ensures child.context.A(0) == 0 && child.context.sepc == context.sepc
      ensures forall n :: 1 <= n <= 31 && n != 10 ==> child.context.X(n) == context.X(n)
      ensures child.context.supervisor == context.supervisor && child.context.interrupt == context.interrupt
      ensures child.image == image && child.stackTop == stackTop && child.fds.table == fds.table
    {
      child := new Process.ForkOf(this);
      pid := AllocPidNonzero(counter);
    }

    /**
     * `exec`: loads the file as `from_elf` does; on failure -1 and the
     * process is untouched, otherwise the new context, address space and
     * stack top replace the old ones, and the descriptor table stays.
     */
    method Exec(elf: Elf, data: seq<u8>) returns (r: isize)
      requires FileFits(elf.segments, data)
      modifies this
      ensures FromElf(elf, data).None? ==> r == -1 && Value() == old(Value())
      ensures FromElf(elf, data).Some? ==> r == 0 && Value() == FromElf(elf, data).value
    {
      var p := Ch4.LoadElf(elf, data, true, TOP_OF_USER_STACK_VPN);
      if p.None? {
        return -1;
      }
      context := p.value.context;
      image := p.value.image;
      stackTop := p.value.stackTop;
      r := 0;
    }
  }

  /**
   * What `from_elf` loads: like ch4's loader, but PT_LOAD segments with
   * memory size 0 are passed over, bytes meeting a page mapped without W
   * fail the load (`translate(..)?`), and the stack ends at the portal page.
   */
  function FromElf(elf: Elf, data: seq<u8>): (r: Option<Ch4.Process>)
    requires FileFits(elf.segments, data)
  {
    Ch4.Loaded(elf, data, true, TOP_OF_USER_STACK_VPN)
  }

  /**
   * The ch6 image: exactly an accepted, parseable file whose non-empty
   * segments leave the two pages below the portal free and copy no bytes
   * onto a page mapped without W; the process starts at the entry with
   * sp = (PORTAL_VPN << 12) - 16, the top of those pages, and every other
   * page is the corrected pass's page.
   */
  lemma FromElfLayout(elf: Elf, data: seq<u8>, v: nat)
    requires FileFits(elf.segments, data)
    ensures FromElf(elf, data).Some? <==>
      && Accepted(elf) && !HasUnparsable(elf.segments) && !ReadOnlyOverlap(elf.segments, |elf.segments|, true)
      && forall j, w :: 0 <= j < |elf.segments| && Ch4.InStack(w, TOP_OF_USER_STACK_VPN) ==> !Covers(elf.segments[j], w, true)
    ensures FromElf(elf, data).Some? ==>
      var p := FromElf(elf, data).value;
      && p.context.Pc() == elf.entry && p.stackTop == p.context.Sp() == PORTAL_VPN * PAGE_SIZE - 16
      && (PORTAL_VPN - 2 <= v < PORTAL_VPN ==> v in p.image && p.image[v] == UserPage({V, R, W, U}, ZeroPage()))
      && (!(PORTAL_VPN - 2 <= v < PORTAL_VPN) && v in p.image ==>
            v in Build(elf.segments, |elf.segments|, data, true) && p.image[v] == Build(elf.segments, |elf.segments|, data, true)[v])
  {
    Ch4.LoadedProcess(elf, data, true, TOP_OF_USER_STACK_VPN, v, 0);
  }

  /**
   * The `fork` syscall: -1 with nothing running; otherwise the child is
   * added under its new pid as a child of the caller and queued, and the
   * caller gets the pid.
   */
  method SysFork<H>(pm: PManager<Process<H>>, counter: IdCounter) returns (r: isize, child: Option<(ProcId, Process<H>)>)
    requires pm.Current().Some? ==> pm.Current().value.context.Valid()
    modifies pm, counter
    ensures old(pm.Current()).None? ==>
      r == -1 && child.None? && pm.store == old(pm.store) && pm.ready == old(pm.ready) && pm.relations == old(pm.relations)
    ensures old(pm.Current()).Some? ==> child.Some?
    ensures old(pm.Current()).Some? && child.Some? ==>
      var (pid, c) := child.value;
      var parent := old(pm.Current()).value;
      && fresh(c) && pid.v != 0 && r == AsIsize(pid.v)
      && c.context == parent.context.WithA(0, 0) && c.Value().image == parent.image && c.fds.table == parent.fds.table
      && pm.store == old(pm.store)[pid := c] && pm.ready == old(pm.ready) + [pid]
      && pm.relations == AddRelations(old(pm.relations), pid, old(pm.current).value)
    ensures pm.current == old(pm.current)
  {
    var parent := pm.Current();
    if parent.None? {
      return -1, None;
    }
    var c, pid := parent.value.Fork(counter);
    pm.Add(pid, c, pm.current.value);
    r := AsIsize(pid.v);
    child := Some((pid, c));
  }

  /**
   * The `exec` syscall. `file` is the ELF the path names, None when the
   * path cannot be read from user memory or no such file exists; `proc`
   * is the running process.
   */
  method SysExec<H>(proc: Option<Process<H>>, file: Option<(Elf, seq<u8>)>) returns (r: isize)
    requires file.Some? ==> FileFits(file.value.0.segments, file.value.1)
    modifies if proc.Some? then {proc.value} else {}
    ensures file.None? || proc.None? ==> r == -1
    ensures file.Some? && proc.Some? ==>
      var (elf, data) := file.value;
      && (FromElf(elf, data).None? ==> r == -1 && proc.value.Value() == old(proc.value.Value()))
      && (FromElf(elf, data).Some? ==> r == 0 && proc.value.Value() == FromElf(elf, data).value)
  {
    if file.None? || proc.None? {
      return -1;
    }
    r := proc.value.Exec(file.value.0, file.value.1);
  }

  /**
   * `clock_gettime(clock, tp)` after `ticks` timer ticks: only
   * CLOCK_MONOTONIC is served; the time is written to user memory, and
   * `stored` says whether that write succeeded. The result pairs the
   * return value with the time written.
   */
  function ClockGettime(clock: usize, ticks: usize, stored: bool): (r: (isize, Option<TimeSpec>))
    ensures clock != CLOCK_MONOTONIC.v ==> r == (-1, None)
    ensures clock == CLOCK_MONOTONIC.v ==>
      && r.1.Some? && Normal(r.1.value) && Nanos(r.1.value) == ticks * 100
      && r.0 == (if stored then 0 else -1)
  {
    if clock != CLOCK_MONOTONIC.v then (-1, None)
    else (if stored then 0 else -1, Some(TimeOfTicks(ticks)))
  }

  /**
   * The exit code the ch6 loop gives the running process after a trap, None
   * when it is suspended instead. `id` is the syscall number a7 held when
   * the trap was taken (`exec` may replace the context since).
   */
  function ExitCode(cause: Cause, id: usize, result: SyscallResult): (code: Option<isize>)
    ensures code.None? <==> cause == UserEnvCall && result.Done? && id != EXIT
    ensures cause != UserEnvCall ==> code == Some(-3)
    ensures cause == UserEnvCall && result.Unsupported? ==> code == Some(-2)
    ensures cause == UserEnvCall && result.Done? && id == EXIT ==> code == Some(result.value)
  {
    if cause != UserEnvCall then Some(-3)
    else if result.Unsupported? then Some(-2)
    else if id == EXIT then Some(result.value)
    else None
  }

  /** Before a syscall is handled the running process's pc moves past its `ecall`. */
  method Enter<H>(proc: Process<H>, cause: Cause)
    modifies proc
    ensures cause == UserEnvCall ==> proc.context == old(proc.context).MoveNext()
    ensures cause != UserEnvCall ==> proc.context == old(proc.context)
    ensures proc.image == old(proc.image) && proc.stackTop == old(proc.stackTop)
  {
    if cause == UserEnvCall {
      proc.context := proc.context.MoveNext();
    }
  }

  /**
   * The end of a turn of the ch6 loop for the running process `proc`: an
   * exit code removes it through `make_current_exited`; otherwise the
   * syscall's value goes to a0 and it is suspended to the back of the queue.
   * Unlike ch5, the breakpoint and every other trap end the process (-3).
   */
  method Settle<H>(pm: PManager<Process<H>>, proc: Process<H>, cause: Cause, id: usize, result: SyscallResult)
    requires proc.context.Valid()
    modifies pm, proc
    ensures pm.current == None
    ensures ExitCode(cause, id, result).Some? ==>
      && proc.context == old(proc.context) && pm.ready == old(pm.ready)
      && (old(pm.current).Some? ==>
            pm.store == old(pm.store) - {old(pm.current).value} &&
            pm.relations == ExitRelations(old(pm.relations), old(pm.current).value, ExitCode(cause, id, result).value))
    ensures ExitCode(cause, id, result).None? ==>
      && proc.context == old(proc.context).WithA(0, AsUsize(result.value))
      && pm.store == old(pm.store) && pm.relations == old(pm.relations)
      && pm.ready == if old(pm.current).Some? then old(pm.ready) + [old(pm.current).value] else old(pm.ready)
    ensures proc.image == old(proc.image) && proc.stackTop == old(proc.stackTop)
  {
    var code := ExitCode(cause, id, result);
    if code.Some? {
      pm.MakeCurrentExited(code.value);
    } else {
      proc.context := proc.context.WithA(0, AsUsize(result.value));
      pm.MakeCurrentSuspend();
    }
  }
}
