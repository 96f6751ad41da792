/**
 * Rules the chapter kernels (ch3 to ch8) repeat almost word for word: the
 * trap causes the scheduler loops tell apart, the 10 MHz tick conversion
 * behind `clock_gettime`, the portal addresses and flag handling around
 * `execute` in ch4 and ch5, the pid search `alloc_pid_nonzero`, and the way
 * `waitpid` in ch6 and ch8 turns the process manager's answer into a return
 * value.
 */
module ChapterShared {
  import opened Words
  import opened Wrappers
  import opened KernelContext
  import opened Syscall
  import opened TaskManage
  import KernelVm

  /** The `scause` values the scheduler loops distinguish; everything else is `OtherTrap`. */
  datatype Cause = SupervisorTimer | UserEnvCall | Breakpoint | OtherTrap

  /** The timer frequency the kernels assume (QEMU's 10 MHz). */
  const CLOCK_FREQ: nat := 10_000_000

  /**
   * The time `clock_gettime(CLOCK_MONOTONIC)` reports after `ticks` timer
   * ticks: the whole seconds, and the remaining ticks scaled to nanoseconds.
   * At 10 MHz one tick is exactly 100 ns, so nothing is lost.
   */
  function TimeOfTicks(ticks: usize): (t: TimeSpec)
    ensures Normal(t) && Nanos(t) == ticks * 100
    ensures t.tvSec == ticks / CLOCK_FREQ
  {
    var rest := ticks % CLOCK_FREQ;
    assert rest * NANOS_PER_SEC / CLOCK_FREQ == rest * 100 by {
      assert rest * NANOS_PER_SEC == (rest * 100) * CLOCK_FREQ;
    }
    TimeSpec(ticks / CLOCK_FREQ, rest * NANOS_PER_SEC / CLOCK_FREQ)
  }

  /** `portal_va + size_of::<usize>()`: where the portal code starts. */
  function PortalEntry(portalVpn: nat): (e: nat)
    ensures e == TransitEntry(portalVpn * KernelVm.PAGE_SIZE)
  {
    portalVpn * KernelVm.PAGE_SIZE + WORD_BYTES
  }

  /** `portal_va + size_of::<usize>() + PORTAL_CODE_SIZE`: the cache of the unit slot key. */
  function CacheAddr(portalVpn: nat): (a: nat)
    ensures a == TransitCache(portalVpn * KernelVm.PAGE_SIZE, UnitKey)
    ensures a == PortalEntry(portalVpn) + PORTAL_CODE_SIZE
  {
    portalVpn * KernelVm.PAGE_SIZE + WORD_BYTES + PORTAL_CODE_SIZE
  }

  /**
   * The chapter kernels' rewrite before `execute` (in ch4 and ch5's loop):
   * the context enters the portal code with the cache address in a0, in
   * supervisor mode with interrupts off. The user pc, a0 and flags have been
   * saved in the cache beforehand.
   */
  function Launch(c: Context, portalVpn: nat): (r: Context)
    requires c.Valid() && CacheAddr(portalVpn) < USIZE_LIMIT
    ensures r.Valid() && r.Pc() == PortalEntry(portalVpn) && r.A(0) == CacheAddr(portalVpn)
    ensures r.supervisor && !r.interrupt
    ensures forall n :: 1 <= n <= 31 && n != 10 ==> r.X(n) == c.X(n)
  {
    c.WithPc(PortalEntry(portalVpn)).WithA(0, CacheAddr(portalVpn)).(supervisor := true, interrupt := false)
  }

  /** After `execute`: the registers and pc the trap left, with the flags saved before the launch. */
  function Restore(after: Context, orig: Context): (r: Context)
    ensures r.x == after.x && r.sepc == after.sepc
    ensures r.supervisor == orig.supervisor && r.interrupt == orig.interrupt
  {
    after.(supervisor := orig.supervisor, interrupt := orig.interrupt)
  }

  /**
   * The portal values the cache is filled with: the user's pc, a0 and flags
   * as they were before the rewrite, and the status word that re-creates
   * those flags on the way back.
   */
  method FillCache(cache: PortalCache, satp: usize, c: Context)
    requires c.Valid()
    modifies cache
    ensures cache.satp == satp && cache.sepc == c.Pc() && cache.a0 == c.A(0)
    ensures cache.sstatus == CacheStatus(c.supervisor, c.interrupt)
  {
    cache.Init(satp, c.Pc(), c.A(0), c.supervisor, c.interrupt);
  }

  /**
   * A launch followed by a trap that changed nothing hands back the original
   * flags: only pc and a0 still hold the portal values, which the cache
   * filled by `FillCache` kept.
   */
  lemma LaunchRestoreKeepsFlags(c: Context, portalVpn: nat)
    requires c.Valid() && CacheAddr(portalVpn) < USIZE_LIMIT
    ensures Restore(Launch(c, portalVpn), c) == c.WithPc(PortalEntry(portalVpn)).WithA(0, CacheAddr(portalVpn))
  {
  }

  /**
   * `alloc_pid_nonzero`: draws process ids until one is not 0, the pid of
   * init. Only a counter at 0 (the first draw, or after wrapping) is drawn
   * twice.
   */
  method AllocPidNonzero(counter: IdCounter) returns (pid: ProcId)
    modifies counter
    ensures pid.v != 0
    ensures old(counter.next) != 0 ==> pid.v == old(counter.next)
    ensures old(counter.next) == 0 ==> pid.v == 1 && counter.next == 2
  {
    var id := counter.New();
    while id == 0
      invariant id == 0 ==> counter.next == 1
      invariant id != 0 && old(counter.next) != 0 ==> id == old(counter.next)
      invariant id != 0 && old(counter.next) == 0 ==> id == 1 && counter.next == 2
      decreases if id == 0 then 1 else 0
    {
      id := counter.New();
    }
    pid := ProcId(id);
  }

  /** The child waitpid asks for: -1 means any child, every other pid is cast. */
  function WaitTarget(pid: isize): (c: ProcId)
    ensures pid == -1 ==> c.v == WAIT_ANY
    ensures pid >= 0 ==> c.v == pid
    ensures c.v == AsUsize(pid)
  {
    if pid == -1 then ProcId(WAIT_ANY) else ProcId(AsUsize(pid))
  }

  /**
   * What `waitpid` in ch6 and ch8 returns for the manager's answer: -1 when
   * there is nothing to wait for, -2 for the "still running" sentinel, and
   * otherwise the reaped pid, unless storing its exit code failed (`stored`
   * is false only when a non-null pointer could not be written).
   */
  function WaitpidValue(waited: Option<(ProcId, isize)>, stored: bool): (r: isize)
    ensures waited.None? ==> r == -1
    ensures waited == Some(SENTINEL) ==> r == -2
    ensures waited.Some? && waited != Some(SENTINEL) ==>
      r == if stored then AsIsize(waited.value.0.v) else -1
  {
    match waited {
      case None => -1
      case Some((p, code)) =>
        if p.v == USIZE_MAX - 1 && code == -1 then -2
        else if stored then AsIsize(p.v) else -1
    }
  }

  /**
   * `waitpid` in ch6 and ch8 through the process manager. `stored` says
   * whether the exit code reached user memory (true for a null pointer).
   */
  method Waitpid<P>(pm: PManager<P>, pid: isize, stored: bool) returns (r: isize)
    modifies pm
    ensures pid < -1 ==> r == -1 && pm.relations == old(pm.relations)
    ensures pm.store == old(pm.store) && pm.ready == old(pm.ready) && pm.current == old(pm.current)
    ensures pid >= -1 && (old(pm.current).None? || old(pm.current).value !in old(pm.relations)) ==>
      r == -1 && pm.relations == old(pm.relations)
    ensures pid >= -1 && old(pm.current).Some? && old(pm.current).value in old(pm.relations) ==>
      var rel := old(pm.relations)[old(pm.current).value];
      var step := if pid == -1 then rel.WaitAnyChild() else rel.WaitChild(WaitTarget(pid));
      r == WaitpidValue(step.1, stored) && pm.relations == old(pm.relations)[old(pm.current).value := step.0]
  {
    if pid < -1 {
      return -1;
    }
    var waited := pm.Wait(WaitTarget(pid));
    r := WaitpidValue(waited, stored);
  }

  /**
   * The three answers waitpid gives for one child c of the caller (any pid
   * a real child can have): a child that exited is reported with its pid
   * and its record is gone; a child still running gives -2; a pid that is
   * not a child gives -1.
   */
  lemma WaitpidOutcomes(rel: ProcRel, c: ProcId, code: isize, stored: bool)
    requires c.v <= ISIZE_MAX && c.v != USIZE_MAX - 1
    requires c in rel.children && !HasRecord(rel.deadChildren, c)
    ensures var exited := rel.DelChild(c, code).WaitChild(c);
      WaitpidValue(exited.1, true) == c.v && !HasRecord(exited.0.deadChildren, c)
    ensures WaitpidValue(rel.WaitChild(c).1, stored) == -2
    ensures forall d :: d !in rel.children && !HasRecord(rel.deadChildren, d) ==>
      WaitpidValue(rel.WaitChild(d).1, stored) == -1
  {
    ExitThenWait(rel, c, code);
    var d := rel.DelChild(c, code);
    var i := FirstRecord(d.deadChildren, c);
    assert d.deadChildren[i].0 == c;
    var rest := d.deadChildren[..i] + d.deadChildren[i + 1..];
    assert i == |rel.deadChildren| by {
      forall j | 0 <= j < |rel.deadChildren|
        ensures d.deadChildren[j].0 != c
      {
        assert d.deadChildren[j] == rel.deadChildren[j];
      }
    }
    assert rest == rel.deadChildren;
  }
}
