/**
 * The ch8 kernel: processes own an address space, a descriptor table, a
 * signal state and the stack slots of their threads; threads are what the
 * scheduler runs. Thread stacks are stacked downwards from the portal page,
 * two pages per slot, and a thread waiting for another through `waittid`
 * is parked until the other exits.
 */
module Ch8 {
  import opened Words
  import opened Wrappers
  import opened KernelContext
  import opened KernelVm
  import opened ElfLoad
  import opened Syscall
  import opened SyscallKernel
  import opened TaskManage
  import opened ChapterShared
  import opened ChapterFd
  import opened SignalDefs
  import opened SignalImpl
  import Signals = SignalImpl
  import Ch4

  /** `PORTAL_VPN`: the last page of the 39-bit user half. */
  const PORTAL_VPN: nat := 0x7FF_FFFF
  /** `TOP_OF_USER_STACK_VPN`: thread stacks grow down from the portal page. */
  const TOP_OF_USER_STACK_VPN: nat := PORTAL_VPN
  /** `BLOCKED_RETURN` (`isize::MIN`): a syscall's way of telling the loop to park the thread. */
  const BLOCKED_RETURN: isize := -0x8000_0000_0000_0000

  /**
   * The first VPN of the stack of thread-stack slot `slot`: the two pages
   * `2 * (slot + 1)` below the top, None when that product or difference
   * does not fit (`checked_mul`, `checked_sub`).
   */
  function ThreadStackVpn(slot: nat): (r: Option<nat>)
    ensures r.Some? <==> Ch4.USER_STACK_PAGES * (slot + 1) <= TOP_OF_USER_STACK_VPN
    ensures r.Some? ==> r.value + Ch4.USER_STACK_PAGES * (slot + 1) == TOP_OF_USER_STACK_VPN
  {
    var pages := Ch4.USER_STACK_PAGES * (slot + 1);
    if pages >= USIZE_LIMIT then None
    else if pages > TOP_OF_USER_STACK_VPN then None
    else Some(TOP_OF_USER_STACK_VPN - pages)
  }

  /**
   * The stacks of two different slots never share a page, and none reaches
   * the portal page; slot 0 is the two pages just below it.
   */
  lemma SlotStacksDisjoint(s1: nat, s2: nat, v: nat)
    requires s1 != s2 && ThreadStackVpn(s1).Some? && ThreadStackVpn(s2).Some?
    ensures var (a, b) := (ThreadStackVpn(s1).value, ThreadStackVpn(s2).value);
      !(a <= v < a + Ch4.USER_STACK_PAGES && b <= v < b + Ch4.USER_STACK_PAGES)
    ensures ThreadStackVpn(s1).value + Ch4.USER_STACK_PAGES <= PORTAL_VPN
    ensures ThreadStackVpn(0) == Some(TOP_OF_USER_STACK_VPN - Ch4.USER_STACK_PAGES)
  {
  }

  /**
   * `map_thread_stack(space, slot)`: the slot's two pages mapped zeroed and
   * VRWU, and the sp 16 bytes below their end. None when the slot has no
   * room (and where a page is already mapped, see `MapStack`).
   */
  function MapThreadStack(img: Image, slot: nat): (r: Option<(Image, usize)>)
    ensures r.Some? ==> ThreadStackVpn(slot).Some?
    ensures r.Some? ==>
      var lo := ThreadStackVpn(slot).value;
      && MapStack(img, lo, Ch4.USER_STACK_PAGES) == Some(r.value.0)
      && r.value.1 + 16 == (lo + Ch4.USER_STACK_PAGES) * PAGE_SIZE && r.value.1 % 16 == 0
    ensures r.None? <==> ThreadStackVpn(slot).None? || MapStack(img, ThreadStackVpn(slot).value, Ch4.USER_STACK_PAGES).None?
  {
    match ThreadStackVpn(slot)
    case None => None
    case Some(lo) =>
      match MapStack(img, lo, Ch4.USER_STACK_PAGES)
      case None => None
      case Some(m) => Some((m, Ch4.StackTop(lo + Ch4.USER_STACK_PAGES)))
  }

  /**
   * `load_user_space_from_elf` followed by `map_thread_stack(space, 0)`, as
   * `from_elf` and `exec` do: the same process ch6's `from_elf` builds
   * (empty segments passed over, the main stack below the portal page).
   */
  method LoadWithMainStack(elf: Elf, data: seq<u8>) returns (r: Option<Ch4.Process>)
    requires FileFits(elf.segments, data)
    ensures r == Ch4.Loaded(elf, data, true, TOP_OF_USER_STACK_VPN)
  {
    if !Accepted(elf) {
      return None;
    }
    var img := LoadSegments(elf.segments, data, true, true);
    if img.None? {
      return None;
    }
    var st := MapThreadStack(img.value, 0);
    if st.None? {
      return None;
    }
    return Some(Ch4.Process(UserContext(elf.entry).WithSp(st.value.1), st.value.0, st.value.1));
  }

  /** A set of slots that holds every number below n has at least n members. */
  lemma {:induction false} HoldsBelow(used: set<nat>, n: nat)
    requires forall s :: 0 <= s < n ==> s in used
    ensures n <= |used|
  {
    if n > 0 {
      HoldsBelow(used - {n - 1}, n - 1);
    }
  }

  /** The search `alloc_thread_stack` makes: the smallest slot not in use. */
  method LowestFreeSlot(used: set<nat>) returns (s: nat)
    ensures s !in used && forall t :: 0 <= t < s ==> t in used
  {
    s := 0;
    while s in used
      invariant forall t :: 0 <= t < s ==> t in used
      invariant s <= |used|
      decreases |used| - s
    {
      HoldsBelow(used, s + 1);
      s := s + 1;
    }
  }

  /** `Thread`: its id, the process it belongs to, and its context, updated in place. */
  class Thread {
    const tid: ThreadId
    const pid: ProcId
    const context: LocalContext

    constructor (tid: ThreadId, pid: ProcId, c: Context)
      requires c.Valid()
      ensures this.tid == tid && this.pid == pid && fresh(context) && fresh(context.x)
      ensures context.Valid() && context.Value() == c
    {
      this.tid := tid;
      this.pid := pid;
      var ctx := new LocalContext.Empty();
      ctx.Assign(c);
      context := ctx;
    }
  }

  /**
   * `Process`: its address space, descriptor table, signal state, the stack
   * slot of each of its threads and the threads parked in `waittid` on each
   * of its threads. The semaphores, mutexes and condition variables are not
   * part of this model.
   */
  class Process<H> {
    var image: Image
    const fds: FdTable<H>
    const signal: SignalImpl
    var threadStacks: map<ThreadId, nat>
    var waiters: map<ThreadId, seq<ThreadId>>

    /** `from_elf`'s process around a loaded image: the main thread on slot 0, stdio open, no signal state. */
    constructor Of(img: Image, mainTid: ThreadId, stdin: H, stdout: H, stddebug: H)
      ensures image == img && threadStacks == map[mainTid := 0] && waiters == map[]
      ensures fresh(fds) && fds.table == [Some(stdin), Some(stdout), Some(stddebug)]
      ensures fresh(signal) && fresh(signal.actions) && signal.Valid() && signal.State() == Initial()
    {
      image := img;
      fds := new FdTable.Stdio(stdin, stdout, stddebug);
      signal := new SignalImpl();
      threadStacks := map[mainTid := 0];
      waiters := map[];
    }

    /** `stack_slot_of(tid)`. */
    function StackSlotOf(tid: ThreadId): (r: Option<nat>)
      reads this
      ensures r.Some? <==> tid in threadStacks
      ensures r.Some? ==> r.value == threadStacks[tid]
    {
      if tid in threadStacks then Some(threadStacks[tid]) else None
    }

    /**
     * `alloc_thread_stack(tid)`: the smallest slot no thread uses gets the
     * thread's stack; the sp is returned. If the slot's pages cannot be
     * mapped nothing changes.
     */
    method AllocThreadStack(tid: ThreadId) returns (top: Option<usize>, ghost slot: nat)
      modifies this
      ensures slot !in old(threadStacks).Values && forall s :: 0 <= s < slot ==> s in old(threadStacks).Values
      ensures top.Some? <==> MapThreadStack(old(image), slot).Some?
      ensures top.Some? ==>
        (image, top.value) == MapThreadStack(old(image), slot).value && threadStacks == old(threadStacks)[tid := slot]
      ensures top.None? ==> image == old(image) && threadStacks == old(threadStacks)
      ensures waiters == old(waiters)
    {
      var s := LowestFreeSlot(threadStacks.Values);
      slot := s;
      var mapped := MapThreadStack(image, s);
      if mapped.None? {
        return None, slot;
      }
      image := mapped.value.0;
      threadStacks := threadStacks[tid := s];
      top := Some(mapped.value.1);
    }

    /** `remove_thread_stack(tid)`: the thread's slot and its waiter list are dropped. */
    method RemoveThreadStack(tid: ThreadId)
      modifies this
      ensures threadStacks == old(threadStacks) - {tid} && waiters == old(waiters) - {tid}
      ensures image == old(image)
    {
      threadStacks := threadStacks - {tid};
      waiters := waiters - {tid};
    }

    /** `add_waittid_waiter(target, waiter)`: the waiter joins the end of target's list. */
    method AddWaittidWaiter(target: ThreadId, waiter: ThreadId)
      modifies this
      ensures waiters == old(waiters)[target := (if target in old(waiters) then old(waiters)[target] else []) + [waiter]]
      ensures image == old(image) && threadStacks == old(threadStacks)
    {
      waiters := waiters[target := (if target in waiters then waiters[target] else []) + [waiter]];
    }

    /** `take_waittid_waiters(target)`: the list, in arrival order, and it is gone. */
    method TakeWaittidWaiters(target: ThreadId) returns (ws: seq<ThreadId>)
      modifies this
      ensures ws == (if target in old(waiters) then old(waiters)[target] else [])
      ensures waiters == old(waiters) - {target}
      ensures image == old(image) && threadStacks == old(threadStacks)
    {
      ws := if target in waiters then waiters[target] else [];
      waiters := waiters - {target};
    }

    /**
     * `exec` on the process, for its thread `tid`: None and no change when
     * the file does not load; otherwise the new address space, `tid` alone
     * on slot 0, no waiters, the signal state reset, and the new thread
     * context returned. The descriptor table stays.
     */
    method Exec(tid: ThreadId, elf: Elf, data: seq<u8>) returns (r: Option<Context>)
      requires FileFits(elf.segments, data) && signal.Valid()
      modifies this, signal, signal.actions
      ensures signal.Valid()
      ensures Ch4.Loaded(elf, data, true, TOP_OF_USER_STACK_VPN).None? ==>
        && r.None? && image == old(image) && threadStacks == old(threadStacks) && waiters == old(waiters)
        && signal.State() == old(signal.State())
      ensures Ch4.Loaded(elf, data, true, TOP_OF_USER_STACK_VPN).Some? ==>
        var p := Ch4.Loaded(elf, data, true, TOP_OF_USER_STACK_VPN).value;
        && r == Some(p.context) && image == p.image
        && threadStacks == map[tid := 0] && waiters == map[] && signal.State() == Initial()
    {
      var p := LoadWithMainStack(elf, data);
      if p.None? {
        return None;
      }
      image := p.value.image;
      threadStacks := map[tid := 0];
      waiters := map[];
      signal.Clear();
      r := Some(p.value.context);
    }
  }

  /**
   * `from_elf(elf, pid, main_tid)`: the process and its main thread, which
   * starts at the entry with sp at the top of slot 0; None when the file
   * does not load.
   */
  method FromElf<H>(elf: Elf, data: seq<u8>, pid: ProcId, mainTid: ThreadId, stdin: H, stdout: H, stddebug: H)
    returns (r: Option<(Process<H>, Thread)>)
    requires FileFits(elf.segments, data)
    ensures r.None? <==> Ch4.Loaded(elf, data, true, TOP_OF_USER_STACK_VPN).None?
    ensures r.Some? ==>
      var p := Ch4.Loaded(elf, data, true, TOP_OF_USER_STACK_VPN).value;
      var (proc, main) := r.value;
      && fresh(proc) && fresh(main) && proc.image == p.image
      && main.tid == mainTid && main.pid == pid && main.context.Valid() && main.context.Value() == p.context
      && proc.threadStacks == map[mainTid := 0] && proc.waiters == map[]
      && proc.fds.table == [Some(stdin), Some(stdout), Some(stddebug)]
      && proc.signal.Valid() && proc.signal.State() == Initial()
  {
    var p := LoadWithMainStack(elf, data);
    if p.None? {
      return None;
    }
    var proc := new Process.Of(p.value.image, mainTid, stdin, stdout, stddebug);
    var main := new Thread(mainTid, pid, p.value.context);
    r := Some((proc, main));
  }

  /**
   * The signal number `kill` and `sigaction` accept: the byte read as a
   * `SignalNo`, refused when that is 0 (ERR, also every byte from 64 up) or
   * above MAX_SIG.
   */
  function CheckedSignal(signum: u8): (r: Option<SignalNo>)
    ensures r.Some? <==> 1 <= signum <= MAX_SIG
    ensures r.Some? ==> r.value == signum
  {
    var s := From(signum);
    if s == 0 || s > MAX_SIG then None else Some(s)
  }

  /**
   * `kill(pid, signum)` against the process table: -1 for a negative pid,
   * a refused signal number or no such process; otherwise the signal is
   * pending at the target and 0 is returned. The target's mask, the
   * signal it is handling and its other pending signals are kept, and a
   * refused call changes nothing.
   */
  method SysKill<H>(procs: map<ProcId, Process<H>>, pid: isize, signum: u8) returns (r: isize)
    requires pid >= 0 && ProcId(pid) in procs ==> procs[ProcId(pid)].signal.Valid()
    modifies if pid >= 0 && ProcId(pid) in procs then {procs[ProcId(pid)].signal} else {}
    ensures r == 0 <==> pid >= 0 && 1 <= signum <= MAX_SIG && ProcId(pid) in procs
    ensures r != 0 ==> r == -1
    ensures r == 0 ==> ContainBit(procs[ProcId(pid)].signal.received, signum as nat)
    ensures pid >= 0 && ProcId(pid) in procs ==>
      var sig := procs[ProcId(pid)].signal;
      && sig.Valid() && sig.mask == old(sig.mask) && sig.handling == old(sig.handling)
      && (forall j :: j != signum as nat ==> (ContainBit(sig.received, j) <==> old(ContainBit(sig.received, j))))
      && (r == -1 ==> sig.received == old(sig.received))
  {
    if pid < 0 {
      return -1;
    }
    var s := CheckedSignal(signum);
    if s.None? {
      return -1;
    }
    var target := ProcId(pid);
    if target !in procs {
      return -1;
    }
    procs[target].signal.AddSignal(s.value);
    r := 0;
  }

  /**
   * `sigaction(signum, action, old_action)` for the running process.
   * `action` is None for a null pointer and Some(None) when it cannot be
   * read; `oldPtr` says whether the old action was asked for and
   * `oldStored` whether writing it to user memory succeeds. -1 for a
   * refused number, an unreadable action, nothing running, an old action
   * SIGKILL and SIGSTOP do not have or cannot store, or an action they
   * cannot take; otherwise 0, the old action written where asked and the
   * new one installed where given.
   */
  method SysSigaction<H>(proc: Option<Process<H>>, signum: u8, action: Option<Option<SignalAction>>, oldPtr: bool, oldStored: bool)
    returns (r: isize, written: Option<SignalAction>)
    requires proc.Some? ==> proc.value.signal.Valid()
    modifies if proc.Some? then {proc.value.signal.actions} else {}
    ensures proc.Some? ==> proc.value.signal.Valid()
    ensures r == 0 || r == -1
    ensures r == 0 <==>
      && CheckedSignal(signum).Some? && action != Some(None) && proc.Some?
      && (oldPtr ==> signum != SIGKILL && signum != SIGSTOP && oldStored)
      && (action.Some? ==> signum != SIGKILL && signum != SIGSTOP)
    ensures r == 0 && oldPtr ==> written == old(proc.value.signal.GetActionRef(signum))
    ensures !oldPtr ==> written.None?
    ensures r == 0 && action.Some? ==>
      proc.value.signal.actions[..] == old(proc.value.signal.actions[..])[signum := action.value]
    ensures r == 0 && action.Some? ==> proc.value.signal.GetActionRef(signum) == action.value
    ensures proc.Some? && (r == -1 || action.None?) ==> proc.value.signal.actions[..] == old(proc.value.signal.actions[..])
  {
    written := None;
    var s := CheckedSignal(signum);
    if s.None? || action == Some(None) || proc.None? {
      return -1, None;
    }
    var signal := proc.value.signal;
    if oldPtr {
      var prev := signal.GetActionRef(s.value);
      if prev.None? || !oldStored {
        return -1, None;
      }
      written := prev;
    }
    if action.Some? {
      var ok := signal.SetAction(s.value, action.value.value);
      if !ok {
        return -1, written;
      }
    }
    r := 0;
  }

  /**
   * `waitpid` in ch8, through the thread manager (the caller is the process
   * of the running thread): as in ch6, -1 for a pid below -1.
   */
  method SysWaitpid<P, T>(pm: PThreadManager<P, T>, pid: isize, stored: bool) returns (r: isize)
    modifies pm
    ensures pid < -1 ==> r == -1 && pm.relations == old(pm.relations)
    ensures pm.procs == old(pm.procs) && pm.threads == old(pm.threads) && pm.ready == old(pm.ready)
    ensures pm.current == old(pm.current) && pm.tid2pid == old(pm.tid2pid)
    ensures pid >= -1 && (old(pm.current).None? || old(pm.current).value !in pm.tid2pid || pm.tid2pid[old(pm.current).value] !in old(pm.relations)) ==>
      r == -1 && pm.relations == old(pm.relations)
    ensures pid >= -1 && old(pm.current).Some? && old(pm.current).value in pm.tid2pid && pm.tid2pid[old(pm.current).value] in old(pm.relations) ==>
      var caller := pm.tid2pid[old(pm.current).value];
      var rel := old(pm.relations)[caller].proc;
      var step := if pid == -1 then rel.WaitAnyChild() else rel.WaitChild(WaitTarget(pid));
      r == WaitpidValue(step.1, stored) && pm.relations == old(pm.relations)[caller := old(pm.relations)[caller].(proc := step.0)]
  {
    if pid < -1 {
      return -1;
    }
    var waited := pm.Wait(WaitTarget(pid));
    r := WaitpidValue(waited, stored);
  }

  /**
   * What `waittid` returns for the manager's answer: -1 when the target is
   * no thread of the caller's process; for the "still running" code -2,
   * BLOCKED_RETURN once the caller is parked (`parked`), -1 when it cannot
   * be; otherwise the exit code.
   */
  function WaittidValue(res: Option<isize>, parked: bool): (r: isize)
    ensures res.None? ==> r == -1
    ensures res == Some(THREAD_RUNNING) ==> r == (if parked then BLOCKED_RETURN else -1)
    ensures res.Some? && res != Some(THREAD_RUNNING) ==> r == res.value
  {
    match res
    case None => -1
    case Some(code) => if code == THREAD_RUNNING then (if parked then BLOCKED_RETURN else -1) else code
  }

  /**
   * The manager's `waittid(t)` as a value: the new relations and the answer
   * through the running thread's process, no change and None without one.
   */
  function WaittidReply(rels: map<ProcId, ProcThreadRel>, tid2pid: map<ThreadId, ProcId>, current: Option<ThreadId>, t: ThreadId)
    : (r: (map<ProcId, ProcThreadRel>, Option<isize>))
  {
    if current.Some? && current.value in tid2pid && tid2pid[current.value] in rels then
      var step := rels[tid2pid[current.value]].WaitThread(t);
      (rels[tid2pid[current.value] := step.0], step.1)
    else (rels, None)
  }

  /** A caller that can wait: its tid and pid are set and it is not waiting for itself. */
  predicate CanWait(cur: Option<(ThreadId, ProcId)>, tid: usize) {
    cur.Some? && cur.value.0.v != USIZE_MAX && cur.value.1.v != USIZE_MAX && cur.value.0 != ThreadId(tid)
  }

  /**
   * `waittid(tid)` as written, for the running thread `cur` (its tid and
   * pid, None when unset): -1 without a running thread and when a thread
   * waits for itself; otherwise the manager's answer, where the code -2
   * gets the caller parked in its process's waiter list. A thread that
   * exited with code -2 gives the same answer as one still running.
   */
  method SysWaittidAsWritten<H>(pm: PThreadManager<Process<H>, Thread>, cur: Option<(ThreadId, ProcId)>, tid: usize) returns (r: isize)
    modifies pm, if cur.Some? && cur.value.1 in pm.procs then {pm.procs[cur.value.1]} else {}
    ensures pm.procs == old(pm.procs) && pm.threads == old(pm.threads) && pm.ready == old(pm.ready)
    ensures pm.current == old(pm.current) && pm.tid2pid == old(pm.tid2pid)
    ensures !CanWait(cur, tid) ==> r == -1 && pm.relations == old(pm.relations)
    ensures CanWait(cur, tid) ==>
      var (rels, res) := WaittidReply(old(pm.relations), pm.tid2pid, pm.current, ThreadId(tid));
      pm.relations == rels && r == WaittidValue(res, cur.value.1 in pm.procs)
    ensures CanWait(cur, tid) && cur.value.1 in pm.procs ==>
      var (self, proc) := (cur.value.0, pm.procs[cur.value.1]);
      var parked := WaittidReply(old(pm.relations), pm.tid2pid, pm.current, ThreadId(tid)).1 == Some(THREAD_RUNNING);
      && (parked ==> proc.waiters == old(proc.waiters)[ThreadId(tid) := (if ThreadId(tid) in old(proc.waiters) then old(proc.waiters)[ThreadId(tid)] else []) + [self]])
      && (!parked ==> proc.waiters == old(proc.waiters))
    ensures !CanWait(cur, tid) && cur.Some? && cur.value.1 in pm.procs ==> pm.procs[cur.value.1].waiters == old(pm.procs[cur.value.1].waiters)
  {
    var self := if cur.Some? then cur.value.0 else ThreadId(USIZE_MAX);
    var selfPid := if cur.Some? then cur.value.1 else ProcId(USIZE_MAX);
    if self.v == USIZE_MAX || selfPid.v == USIZE_MAX {
      return -1;
    }
    var target := ThreadId(tid);
    if target == self {
      return -1;
    }
    var res := pm.Waittid(target);
    if res == Some(THREAD_RUNNING) && selfPid in pm.procs {
      pm.procs[selfPid].AddWaittidWaiter(target, self);
    }
    r := WaittidValue(res, selfPid in pm.procs);
  }

  /**
   * A thread that exits with code -2 (an unsupported syscall, say) leaves a
   * record that `waittid` reads as "still running": the waiter is parked,
   * the record is consumed, and the target is gone from both lists, so no
   * later exit ever wakes the waiter.
   */
  lemma ExitedMinusTwoParks(rel: ProcThreadRel, t: ThreadId)
    requires multiset(rel.threads)[t] == 1 && !HasRecord(rel.deadThreads, t)
    ensures var after := rel.DelThread(t, THREAD_RUNNING).WaitThread(t);
      && WaittidValue(after.1, true) == BLOCKED_RETURN
      && t !in after.0.threads && !HasRecord(after.0.deadThreads, t)
  {
    var d := rel.DelThread(t, THREAD_RUNNING);
    assert multiset(d.threads)[t] == 0;
    assert d.deadThreads[|rel.deadThreads|] == (t, THREAD_RUNNING);
    var i := FirstRecord(d.deadThreads, t);
    assert i == |rel.deadThreads| by {
      forall j | 0 <= j < |rel.deadThreads|
        ensures d.deadThreads[j].0 != t
      {
        assert d.deadThreads[j] == rel.deadThreads[j];
      }
    }
    assert d.deadThreads[..i] == rel.deadThreads;
  }

  /**
   * Whether `t` is a live thread of the running thread's process with no
   * exit record: the only case in which waiting for it should block.
   */
  predicate Live(rels: map<ProcId, ProcThreadRel>, tid2pid: map<ThreadId, ProcId>, current: Option<ThreadId>, t: ThreadId) {
    && current.Some? && current.value in tid2pid && tid2pid[current.value] in rels
    && t in rels[tid2pid[current.value]].threads && !HasRecord(rels[tid2pid[current.value]].deadThreads, t)
  }

  /**
   * `waittid` as intended: the caller is parked exactly when the target is
   * live; an exit record is always reported with its code, whatever that
   * code is.
   */
  function ThreadWaitValue(rel: ProcThreadRel, t: ThreadId, parked: bool): (r: isize)
  {
    if HasRecord(rel.deadThreads, t) then rel.deadThreads[FirstRecord(rel.deadThreads, t)].1
    else if t in rel.threads then (if parked then BLOCKED_RETURN else -1)
    else -1
  }

  /**
   * With the intended answer, an exited thread is reported with its exit
   * code (and its record reaped) for every code, a live thread parks the
   * caller, and an unknown one gives -1.
   */
  lemma ThreadWaitCases(rel: ProcThreadRel, t: ThreadId, code: isize, u: ThreadId)
    requires t in rel.threads && !HasRecord(rel.deadThreads, t)
    requires u !in rel.threads && !HasRecord(rel.deadThreads, u)
    ensures ThreadWaitValue(rel.DelThread(t, code), t, true) == code
    ensures rel.DelThread(t, code).WaitThread(t).1 == Some(code)
    ensures ThreadWaitValue(rel, t, true) == BLOCKED_RETURN
    ensures ThreadWaitValue(rel, u, true) == -1
  {
    var d := rel.DelThread(t, code);
    assert d.deadThreads[|rel.deadThreads|] == (t, code);
    var i := FirstRecord(d.deadThreads, t);
    assert i == |rel.deadThreads| by {
      forall j | 0 <= j < |rel.deadThreads|
        ensures d.deadThreads[j].0 != t
      {
        assert d.deadThreads[j] == rel.deadThreads[j];
      }
    }
  }

  /**
   * `waittid(tid)` as intended: as written, except that the caller is
   * parked exactly when the target is live, so an exit record with code -2
   * is returned as a code rather than blocking for ever.
   */
  method SysWaittid<H>(pm: PThreadManager<Process<H>, Thread>, cur: Option<(ThreadId, ProcId)>, tid: usize) returns (r: isize)
    modifies pm, if cur.Some? && cur.value.1 in pm.procs then {pm.procs[cur.value.1]} else {}
    ensures pm.procs == old(pm.procs) && pm.threads == old(pm.threads) && pm.ready == old(pm.ready)
    ensures pm.current == old(pm.current) && pm.tid2pid == old(pm.tid2pid)
    ensures !CanWait(cur, tid) ==> r == -1 && pm.relations == old(pm.relations)
    ensures CanWait(cur, tid) ==>
      pm.relations == WaittidReply(old(pm.relations), pm.tid2pid, pm.current, ThreadId(tid)).0
    ensures CanWait(cur, tid) && (pm.current.None? || pm.current.value !in pm.tid2pid || pm.tid2pid[pm.current.value] !in old(pm.relations)) ==>
      r == -1
    ensures CanWait(cur, tid) && pm.current.Some? && pm.current.value in pm.tid2pid && pm.tid2pid[pm.current.value] in old(pm.relations) ==>
      r == ThreadWaitValue(old(pm.relations)[pm.tid2pid[pm.current.value]], ThreadId(tid), cur.value.1 in pm.procs)
    ensures CanWait(cur, tid) && cur.value.1 in pm.procs ==>
      var (self, proc) := (cur.value.0, pm.procs[cur.value.1]);
      && (Live(old(pm.relations), pm.tid2pid, pm.current, ThreadId(tid)) ==>
        proc.waiters == old(proc.waiters)[ThreadId(tid) := (if ThreadId(tid) in old(proc.waiters) then old(proc.waiters)[ThreadId(tid)] else []) + [self]])
      && (!Live(old(pm.relations), pm.tid2pid, pm.current, ThreadId(tid)) ==> proc.waiters == old(proc.waiters))
    ensures !CanWait(cur, tid) && cur.Some? && cur.value.1 in pm.procs ==> pm.procs[cur.value.1].waiters == old(pm.procs[cur.value.1].waiters)
  {
    var self := if cur.Some? then cur.value.0 else ThreadId(USIZE_MAX);
    var selfPid := if cur.Some? then cur.value.1 else ProcId(USIZE_MAX);
    if self.v == USIZE_MAX || selfPid.v == USIZE_MAX {
      return -1;
    }
    var target := ThreadId(tid);
    if target == self {
      return -1;
    }
    var live := Live(pm.relations, pm.tid2pid, pm.current, target);
    var res := pm.Waittid(target);
    if live {
      if selfPid in pm.procs {
        pm.procs[selfPid].AddWaittidWaiter(target, self);
        return BLOCKED_RETURN;
      }
      return -1;
    }
    r := if res.Some? then res.value else -1;
  }

  /**
   * `thread_create(entry, arg)` for the process `pid` of the running thread
   * (None with nothing running, as is the id usize::MAX): -1 without one.
   * Otherwise a thread id is drawn, and the result is -1 when the process
   * is gone or the lowest free stack slot cannot be mapped. Else the new
   * thread starts in user mode at `entry` with sp at its stack top and
   * `arg` in a0, owns a register array of its own, is queued under its
   * process, and its id is returned.
   */
  method SysThreadCreate<H>(pm: PThreadManager<Process<H>, Thread>, ids: IdCounter, pid: Option<ProcId>, entry: usize, arg: usize)
    returns (r: isize, ghost slot: nat)
    requires OwnContexts(pm.threads)
    modifies pm, ids, if pid.Some? && pid.value in pm.procs then {pm.procs[pid.value]} else {}
    ensures OwnContexts(pm.threads)
    ensures pm.procs == old(pm.procs) && pm.current == old(pm.current)
    ensures pid.None? || pid.value.v == USIZE_MAX ==>
      r == -1 && ids.next == old(ids.next) && pm.threads == old(pm.threads) && pm.ready == old(pm.ready)
    ensures pid.Some? && pid.value.v != USIZE_MAX ==> ids.next == WrappingAdd(old(ids.next), 1)
    ensures pid.Some? && pid.value.v != USIZE_MAX && pid.value !in old(pm.procs) ==>
      r == -1 && pm.threads == old(pm.threads) && pm.ready == old(pm.ready)
    ensures pid.Some? && pid.value.v != USIZE_MAX && pid.value in old(pm.procs) ==>
      var proc := old(pm.procs)[pid.value];
      var tid := ThreadId(old(ids.next));
      var mapped := MapThreadStack(old(proc.image), slot);
      && slot !in old(proc.threadStacks).Values && (forall s :: 0 <= s < slot ==> s in old(proc.threadStacks).Values)
      && (mapped.None? ==>
            && r == -1 && pm.threads == old(pm.threads) && pm.ready == old(pm.ready)
            && proc.image == old(proc.image) && proc.threadStacks == old(proc.threadStacks))
      && (mapped.Some? ==>
            && r == AsIsize(tid.v) && proc.image == mapped.value.0 && proc.threadStacks == old(proc.threadStacks)[tid := slot]
            && pm.threads.Keys == old(pm.threads).Keys + {tid}
            && (forall t :: t in old(pm.threads) && t != tid ==> pm.threads[t] == old(pm.threads)[t])
            && fresh(pm.threads[tid]) && pm.threads[tid].tid == tid && pm.threads[tid].pid == pid.value
            && pm.threads[tid].context.Value() == UserContext(entry).WithSp(mapped.value.1).WithA(0, arg)
            && pm.ready == old(pm.ready) + [tid] && pm.tid2pid == old(pm.tid2pid)[tid := pid.value]
            && pm.relations == old(pm.relations)[pid.value := ThreadRelOr(old(pm.relations), pid.value, INIT_PID).AddThread(tid)])
  {
    slot := 0;
    if pid.None? || pid.value.v == USIZE_MAX {
      return -1, slot;
    }
    var id := ids.New();
    var tid := ThreadId(id);
    var proc := pm.GetProc(pid.value);
    if proc.None? {
      return -1, slot;
    }
    var top;
    top, slot := proc.value.AllocThreadStack(tid);
    if top.None? {
      return -1, slot;
    }
    var thread := new Thread(tid, pid.value, UserContext(entry).WithSp(top.value).WithA(0, arg));
    pm.Add(tid, thread, pid.value);
    r := AsIsize(id);
  }

  /** Each thread owns its register array. */
  predicate OwnContexts(threads: map<ThreadId, Thread>) {
    && (forall t :: t in threads ==> threads[t].context.x.Length == REGISTER_COUNT)
    && (forall t, u :: t in threads && u in threads && t != u ==> threads[t].context.x != threads[u].context.x)
  }

  /** Writing the same a0 twice is writing it once. */
  lemma WithATwice(c: Context, v: usize)
    requires c.Valid()
    ensures c.WithA(0, v).WithA(0, v) == c.WithA(0, v)
  {
    assert c.WithA(0, v).WithA(0, v).x == c.WithA(0, v).x;
  }

  /**
   * The contexts of `threads` against their values `before`: those in
   * `done` have had a0 set to v, the others are as they were.
   */
  ghost predicate Woken(threads: map<ThreadId, Thread>, before: map<ThreadId, Context>, done: seq<ThreadId>, v: usize)
    reads set t | t in threads :: threads[t].context
    reads set t | t in threads :: threads[t].context.x
  {
    forall t :: t in threads ==> (t in before && before[t].Valid() &&
      threads[t].context.Value() == if t in done then before[t].WithA(0, v) else before[t])
  }

  /**
   * `wake_waittid_waiters`' loop: every waiter that is still a thread gets
   * the exit code in a0 and rejoins the ready queue, in the order it
   * waited; a waiter that is gone is passed over.
   */
  method WakeWaiters<P>(pm: PThreadManager<P, Thread>, ws: seq<ThreadId>, code: isize)
    requires OwnContexts(pm.threads)
    modifies pm, set t | t in ws && t in pm.threads :: pm.threads[t].context.x
    ensures pm.threads == old(pm.threads) && pm.procs == old(pm.procs) && pm.current == old(pm.current)
    ensures pm.relations == old(pm.relations) && pm.tid2pid == old(pm.tid2pid)
    ensures pm.ready == old(pm.ready) + Present(ws, pm.threads.Keys)
    ensures forall t :: t in ws && t in pm.threads ==>
      pm.threads[t].context.Value() == old(pm.threads[t].context.Value()).WithA(0, AsUsize(code))
  {
    var threads := pm.threads;
    ghost var before := map t | t in threads :: threads[t].context.Value();
    ghost var done: seq<ThreadId> := [];
    var i := 0;
    while i < |ws|
      invariant 0 <= i <= |ws|
      invariant pm.threads == threads && pm.procs == old(pm.procs) && pm.current == old(pm.current)
      invariant pm.relations == old(pm.relations) && pm.tid2pid == old(pm.tid2pid)
      invariant done == Present(ws[..i], threads.Keys) && pm.ready == old(pm.ready) + done
      invariant Woken(threads, before, done, AsUsize(code))
    {
      var w := ws[i];
      assert ws[..i + 1] == ws[..i] + [w];
      PresentSnoc(ws[..i], w, threads.Keys);
      if w in threads {
        Wake(pm, w, code, before, done);
        Append(old(pm.ready), done, w);
        done := done + [w];
      }
      i := i + 1;
    }
    assert ws[..i] == ws;
  }

  /** Appending one more id after a concatenation. */
  lemma Append(q: seq<ThreadId>, done: seq<ThreadId>, w: ThreadId)
    ensures (q + done) + [w] == q + (done + [w])
  {
  }

  /** One waiter woken: a0 := code, and back on the ready queue. */
  method Wake<P>(pm: PThreadManager<P, Thread>, w: ThreadId, code: isize, ghost before: map<ThreadId, Context>, ghost done: seq<ThreadId>)
    requires w in pm.threads && OwnContexts(pm.threads) && Woken(pm.threads, before, done, AsUsize(code))
    modifies pm, pm.threads[w].context.x
    ensures pm.threads == old(pm.threads) && pm.procs == old(pm.procs) && pm.current == old(pm.current)
    ensures pm.relations == old(pm.relations) && pm.tid2pid == old(pm.tid2pid)
    ensures pm.ready == old(pm.ready) + [w]
    ensures pm.threads[w].context.Value() == old(pm.threads[w].context.Value()).WithA(0, AsUsize(code))
    ensures Woken(pm.threads, before, done + [w], AsUsize(code))
  {
    if w in done {
      WithATwice(before[w], AsUsize(code));
    }
    pm.threads[w].context.SetA(0, AsUsize(code));
    pm.ReEnque(w);
  }

  /** The ids in `ws` that are in `keys`, in order. */
  function Present(ws: seq<ThreadId>, keys: set<ThreadId>): (r: seq<ThreadId>)
    ensures forall t :: t in r <==> t in ws && t in keys
    ensures |r| <= |ws|
  {
    if |ws| == 0 then []
    else Present(ws[..|ws| - 1], keys) + (if ws[|ws| - 1] in keys then [ws[|ws| - 1]] else [])
  }

  lemma PresentSnoc(ws: seq<ThreadId>, w: ThreadId, keys: set<ThreadId>)
    ensures Present(ws + [w], keys) == Present(ws, keys) + (if w in keys then [w] else [])
  {
    assert (ws + [w])[..|ws|] == ws;
  }

  /**
   * What `make_current_exited(code)` does to the bookkeeping of the exiting
   * thread tid: it is recorded dead in its process; when no live thread is
   * left there, the process is deleted and its parent records the code.
   */
  ghost predicate ThreadRetired<P>(relations0: map<ProcId, ProcThreadRel>, procs0: map<ProcId, P>,
                                   tid2pid0: map<ThreadId, ProcId>, tid: ThreadId, code: isize,
                                   relations: map<ProcId, ProcThreadRel>, procs: map<ProcId, P>,
                                   tid2pid: map<ThreadId, ProcId>)
    requires tid in tid2pid0 && tid2pid0[tid] in relations0
  {
    var pid := tid2pid0[tid];
    var rel := relations0[pid].DelThread(tid, code);
    && tid2pid == tid2pid0
    && (rel.threads != [] ==> relations == relations0[pid := rel] && procs == procs0)
    && (rel.threads == [] ==> relations == DelProcRelations(relations0[pid := rel], pid, code) && procs == procs0 - {pid})
  }

  /**
   * `exit_current_thread(pid, tid, code)`: the threads waiting for `tid`
   * are woken with the code, the thread's stack slot and waiter list are
   * dropped from its process, and the running thread leaves the manager
   * (`make_current_exited`, which the running thread's process relation
   * must allow).
   */
  method ExitCurrentThread<H>(pm: PThreadManager<Process<H>, Thread>, pid: ProcId, tid: ThreadId, code: isize)
    requires OwnContexts(pm.threads)
    requires pm.current.Some? ==> pm.current.value in pm.tid2pid && pm.tid2pid[pm.current.value] in pm.relations
    modifies pm, (if pid in pm.procs then {pm.procs[pid]} else {}), set t | t in pm.threads :: pm.threads[t].context.x
    ensures pm.current == None
    ensures var ws := if pid in old(pm.procs) && tid in old(pm.procs[pid].waiters) then old(pm.procs[pid].waiters[tid]) else [];
      && pm.ready == old(pm.ready) + Present(ws, old(pm.threads).Keys)
      && forall t :: t in ws && t in old(pm.threads) ==>
        old(pm.threads)[t].context.Value() == old(pm.threads[t].context.Value()).WithA(0, AsUsize(code))
    ensures old(pm.current).Some? ==> pm.threads == old(pm.threads) - {old(pm.current).value}
    ensures old(pm.current).Some? ==>
      ThreadRetired(old(pm.relations), old(pm.procs), old(pm.tid2pid), old(pm.current).value, code, pm.relations, pm.procs, pm.tid2pid)
    ensures old(pm.current).None? ==>
      pm.threads == old(pm.threads) && pm.relations == old(pm.relations) && pm.procs == old(pm.procs) && pm.tid2pid == old(pm.tid2pid)
    ensures pid in old(pm.procs) ==>
      var proc := old(pm.procs)[pid];
      proc.threadStacks == old(proc.threadStacks) - {tid} && proc.waiters == old(proc.waiters) - {tid} && proc.image == old(proc.image)
  {
    var ws: seq<ThreadId> := [];
    if pid in pm.procs {
      ws := pm.procs[pid].TakeWaittidWaiters(tid);
    }
    WakeWaiters(pm, ws, code);
    if pid in pm.procs {
      pm.procs[pid].RemoveThreadStack(tid);
    }
    pm.MakeCurrentExited(code);
  }

  /** What the loop does with the thread once its trap is handled. */
  datatype Verdict = Quit(code: isize) | Block | Suspend

  /**
   * The syscall's own verdict: EXIT quits with its value, an unsupported
   * syscall quits with -2, BLOCKED_RETURN blocks, anything else suspends
   * (with the value in a0).
   */
  function SyscallVerdict(isExit: bool, result: SyscallResult): (v: Verdict)
    ensures v.Quit? <==> result.Unsupported? || isExit
    ensures v == Block <==> result.Done? && !isExit && result.value == BLOCKED_RETURN
    ensures result.Unsupported? ==> v == Quit(-2)
    ensures result.Done? && isExit ==> v == Quit(result.value)
  {
    match result
    case Unsupported(_) => Quit(-2)
    case Done(ret) => if isExit then Quit(ret) else if ret == BLOCKED_RETURN then Block else Suspend
  }

  /**
   * A trap on a user thread, on its signal state and context: a syscall
   * steps past the `ecall` and takes its verdict; unless that quits, the
   * value goes to a0 (when the thread suspends) and the signals are handled,
   * and a kill turns the verdict into Quit with the kill code. A timer
   * interrupt handles the signals and suspends unless killed. Every other
   * trap, a breakpoint included, quits with -3.
   */
  function Trap(st: SignalState, c: Context, cause: Cause, result: SyscallResult): (r: (Verdict, SignalState, Context))
    requires st.Valid() && c.Valid()
    ensures r.1.Valid() && r.2.Valid()
  {
    match cause
    case UserEnvCall =>
      var c1 := c.MoveNext();
      var first := SyscallVerdict(c1.A(7) == EXIT, result);
      if first.Quit? then (first, st, c1)
      else Delivered(st, if first == Suspend then c1.WithA(0, AsUsize(result.value)) else c1, first)
    case SupervisorTimer => Delivered(st, c, Suspend)
    case _ => (Quit(-3), st, c)
  }

  /** `handle_signals` after a trap: a kill replaces the verdict `first` with its code. */
  function Delivered(st: SignalState, c: Context, first: Verdict): (r: (Verdict, SignalState, Context))
    requires st.Valid() && c.Valid()
    ensures r.1.Valid() && r.2.Valid()
    ensures var o := Signals.Handle(st, c);
      && (r.0 == first <==> !o.result.ProcessKilled? || first == Quit(o.result.code))
      && (o.result.ProcessKilled? ==> r.0 == Quit(o.result.code))
  {
    var o := Signals.Handle(st, c);
    (if o.result.ProcessKilled? then Quit(o.result.code) else first, o.state, o.context)
  }

  /**
   * The loop's rules: only a syscall that returned BLOCKED_RETURN blocks
   * the thread, and a pending kill overrides even that; EXIT and an
   * unsupported syscall leave the signal state alone; a deliverable SIGKILL
   * ends the thread with -9 after any other syscall and after a timer
   * interrupt; every other trap quits with -3 and changes nothing.
   */
  lemma TrapRules(st: SignalState, c: Context, cause: Cause, result: SyscallResult)
    requires st.Valid() && c.Valid()
    ensures Trap(st, c, cause, result).0 == Block ==>
      cause == UserEnvCall && result == Done(BLOCKED_RETURN) && c.A(7) != EXIT && !Deliverable(st.received, st.mask, SIGKILL)
    ensures cause == UserEnvCall && (c.A(7) == EXIT || result.Unsupported?) ==>
      Trap(st, c, cause, result) == (SyscallVerdict(c.A(7) == EXIT, result), st, c.MoveNext())
    ensures Deliverable(st.received, st.mask, SIGKILL) && (cause == SupervisorTimer || (cause == UserEnvCall && c.A(7) != EXIT && result.Done?)) ==>
      Trap(st, c, cause, result).0 == Quit(-9)
    ensures cause == Breakpoint || cause == OtherTrap ==> Trap(st, c, cause, result) == (Quit(-3), st, c)
    ensures cause == SupervisorTimer ==> Trap(st, c, cause, result).0 != Block
  {
    var c1 := c.MoveNext();
    assert c1.A(7) == c.A(7);
    if cause == UserEnvCall && c.A(7) != EXIT && result.Done? {
      var c2 := if result.value != BLOCKED_RETURN then c1.WithA(0, AsUsize(result.value)) else c1;
      if Deliverable(st.received, st.mask, SIGKILL) {
        KillFirst(st, c2);
      }
    }
    if cause == SupervisorTimer && Deliverable(st.received, st.mask, SIGKILL) {
      KillFirst(st, c);
    }
  }

  /**
   * The loop body after `execute` returns, for the running thread and its
   * process's signal state: the syscall's value in a0, `move_next`, the
   * signals handled in place, and the verdict.
   */
  method HandleTrap(t: Thread, signal: SignalImpl, cause: Cause, result: SyscallResult) returns (v: Verdict)
    requires t.context.Valid() && signal.Valid()
    modifies t.context, t.context.x, signal
    ensures t.context.Valid() && signal.Valid()
    ensures (v, signal.State(), t.context.Value()) == Trap(old(signal.State()), old(t.context.Value()), cause, result)
  {
    var ctx := t.context;
    match cause
    case UserEnvCall =>
      ctx.MoveNext();
      v := SyscallVerdict(ctx.Value().A(7) == EXIT, result);
      if v.Quit? {
        return;
      }
      if v == Suspend {
        ctx.SetA(0, AsUsize(result.value));
      }
      v := Deliver(ctx, signal, v);
    case SupervisorTimer =>
      v := Deliver(ctx, signal, Suspend);
    case _ =>
      v := Quit(-3);
  }

  /** `handle_signals` after a trap: a kill replaces the verdict `first` with its code. */
  method Deliver(ctx: LocalContext, signal: SignalImpl, first: Verdict) returns (v: Verdict)
    requires ctx.Valid() && signal.Valid()
    modifies ctx, ctx.x, signal
    ensures ctx.Valid() && signal.Valid()
    ensures (v, signal.State(), ctx.Value()) == Delivered(old(signal.State()), old(ctx.Value()), first)
  {
    var sig := signal.HandleSignals(ctx);
    v := if sig.ProcessKilled? then Quit(sig.code) else first;
  }

  /**
   * The loop's last step: a quitting thread exits (as ExitCurrentThread
   * says), a blocked one leaves the processor without rejoining the queue,
   * a suspended one rejoins it.
   */
  method Conclude<H>(pm: PThreadManager<Process<H>, Thread>, pid: ProcId, tid: ThreadId, v: Verdict)
    requires OwnContexts(pm.threads)
    requires pm.current.Some? ==> pm.current.value in pm.tid2pid && pm.tid2pid[pm.current.value] in pm.relations
    modifies pm, (if pid in pm.procs then {pm.procs[pid]} else {}), set t | t in pm.threads :: pm.threads[t].context.x
    ensures pm.current == None
    ensures v == Block ==> pm.ready == old(pm.ready) && pm.threads == old(pm.threads)
    ensures v == Suspend ==> pm.ready == old(pm.ready) + (if old(pm.current).Some? then [old(pm.current).value] else [])
    ensures !v.Quit? ==>
      pm.threads == old(pm.threads) && pm.procs == old(pm.procs) && pm.relations == old(pm.relations) && pm.tid2pid == old(pm.tid2pid)
    ensures v.Quit? ==>
      var ws := if pid in old(pm.procs) && tid in old(pm.procs[pid].waiters) then old(pm.procs[pid].waiters[tid]) else [];
      && pm.ready == old(pm.ready) + Present(ws, old(pm.threads).Keys)
      && forall t :: t in ws && t in old(pm.threads) ==>
        old(pm.threads)[t].context.Value() == old(pm.threads[t].context.Value()).WithA(0, AsUsize(v.code))
    ensures v.Quit? && old(pm.current).Some? ==> pm.threads == old(pm.threads) - {old(pm.current).value}
    ensures v.Quit? && old(pm.current).Some? ==>
      ThreadRetired(old(pm.relations), old(pm.procs), old(pm.tid2pid), old(pm.current).value, v.code, pm.relations, pm.procs, pm.tid2pid)
    ensures v.Quit? && old(pm.current).None? ==>
      pm.threads == old(pm.threads) && pm.relations == old(pm.relations) && pm.procs == old(pm.procs) && pm.tid2pid == old(pm.tid2pid)
    ensures v.Quit? && pid in old(pm.procs) ==>
      var proc := old(pm.procs)[pid];
      proc.threadStacks == old(proc.threadStacks) - {tid} && proc.waiters == old(proc.waiters) - {tid} && proc.image == old(proc.image)
  {
    match v
    case Quit(code) => ExitCurrentThread(pm, pid, tid, code);
    case Block => pm.MakeCurrentBlocked();
    case Suspend => pm.MakeCurrentSuspend();
  }
}
