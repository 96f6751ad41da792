/**
 * The sync crate: the interrupt-nesting counter behind `UPIntrFreeCell`, and
 * the three blocking primitives built on it (a FIFO hand-off mutex, a counting
 * semaphore, a condition variable).
 *
 * Nothing here blocks: every call returns whether the caller may go on and
 * which waiting thread, if any, the kernel must wake. Each primitive is first
 * described by a value (`Intr`, `MutexState`, `SemState`) and pure transition
 * functions; the classes keep the same data in fields and their methods are
 * proved to perform exactly those transitions.
 *
 * A `panic!` of the source is an `ok == false` result. Nothing is changed
 * then, except in `Condvar.WaitWithMutex`, whose `unwrap` fails only after
 * the mutex has been released; its contract states that state.
 */
module Sync {
  import opened Wrappers
  import opened TaskManage

  // ---------------------------------------------------------------------
  // Interrupt nesting: push_off / pop_off
  // ---------------------------------------------------------------------

  /**
   * The global `IntrState` (nesting depth and the saved enable bit) together
   * with the hart's own interrupt-enable bit `sie`.
   */
  datatype Intr = Intr(nesting: nat, prevEnabled: bool, sie: bool)

  /** The state before any cell is accessed. */
  function IntrInit(sie: bool): (s: Intr)
    ensures s.nesting == 0 && !s.prevEnabled && s.sie == sie
  {
    Intr(0, false, sie)
  }

  /** `push_off`: interrupts go off on the 0 -> 1 transition only. */
  function Push(s: Intr): (t: Intr)
    ensures t.nesting == s.nesting + 1
    ensures s.nesting == 0 ==> t.prevEnabled == s.sie && !t.sie
    ensures s.nesting > 0 ==> t.prevEnabled == s.prevEnabled && t.sie == s.sie
  {
    if s.nesting == 0 then Intr(1, s.sie, false)
    else Intr(s.nesting + 1, s.prevEnabled, s.sie)
  }

  /**
   * `pop_off`: None is the underflow panic. Interrupts come back on only on
   * the 1 -> 0 transition, and only if they were on before the first push.
   */
  function Pop(s: Intr): (r: Option<Intr>)
    ensures r.None? <==> s.nesting == 0
    ensures r.Some? ==> r.value.nesting + 1 == s.nesting && r.value.prevEnabled == s.prevEnabled
    ensures r.Some? && s.nesting == 1 ==> r.value.sie == (s.sie || s.prevEnabled)
    ensures r.Some? && s.nesting > 1 ==> r.value.sie == s.sie
  {
    if s.nesting == 0 then None
    else
      var n := s.nesting - 1;
      Some(Intr(n, s.prevEnabled, if n == 0 && s.prevEnabled then true else s.sie))
  }

  /** While any access is open, interrupts are off. */
  ghost predicate Consistent(s: Intr) {
    s.nesting > 0 ==> !s.sie
  }

  /** A push followed by a pop restores the depth and the enable bit. */
  lemma PushPopRestores(s: Intr)
    ensures Pop(Push(s)).Some?
    ensures Pop(Push(s)).value.nesting == s.nesting
    ensures Pop(Push(s)).value.sie == s.sie
    ensures Consistent(s) ==> Consistent(Pop(Push(s)).value)
  {
  }

  /**
   * Nested accesses: interrupts stay off until the outermost one ends, and
   * then they are back to what they were before the first push.
   */
  lemma {:induction false} NestedRestores(s: Intr, k: nat)
    requires s.nesting == 0
    ensures PopN(PushN(s, k), k) == Some(Intr(0, if k == 0 then s.prevEnabled else s.sie, s.sie))
    decreases k
  {
    if k > 0 {
      PushNShape(s, k);
      PopNShape(s.sie, k);
    }
  }

  /** `k` pushes in a row. */
  function PushN(s: Intr, k: nat): (t: Intr)
    ensures t.nesting == s.nesting + k
    decreases k
  {
    if k == 0 then s else Push(PushN(s, k - 1))
  }

  /** `k` pops in a row; None if any of them underflows. */
  function PopN(s: Intr, k: nat): (r: Option<Intr>)
    ensures r.Some? <==> s.nesting >= k
    decreases k
  {
    if k == 0 then Some(s)
    else match Pop(s)
      case None => None
      case Some(t) => PopN(t, k - 1)
  }

  /** After k >= 1 pushes from depth 0, the first bit is saved and `sie` is off. */
  lemma {:induction false} PushNShape(s: Intr, k: nat)
    requires s.nesting == 0 && k > 0
    ensures PushN(s, k) == Intr(k, s.sie, false)
    decreases k
  {
    if k > 1 {
      PushNShape(s, k - 1);
    }
  }

  /** Popping k levels of `Intr(k, p, false)` ends at depth 0 with `sie == p`. */
  lemma {:induction false} PopNShape(p: bool, k: nat)
    requires k > 0
    ensures PopN(Intr(k, p, false), k) == Some(Intr(0, p, p))
    decreases k
  {
    if k > 1 {
      assert Pop(Intr(k, p, false)) == Some(Intr(k - 1, p, false));
      PopNShape(p, k - 1);
    }
  }

  /** The global `INTR_STATE` plus the interrupt-enable bit of the hart. */
  class IntrState {
    var nesting: nat
    var prevEnabled: bool
    var sie: bool

    function State(): Intr
      reads this
    {
      Intr(nesting, prevEnabled, sie)
    }

    constructor (enabled: bool)
      ensures State() == IntrInit(enabled)
    {
      nesting, prevEnabled, sie := 0, false, enabled;
    }

    /** `push_off`. */
    method PushOff()
      modifies this
      ensures State() == Push(old(State()))
    {
      if nesting == 0 {
        prevEnabled := sie;
        sie := false;
      }
      nesting := nesting + 1;
    }

    /** `pop_off`; `ok == false` is the underflow panic, with nothing changed. */
    method PopOff() returns (ok: bool)
      modifies this
      ensures ok <==> Pop(old(State())).Some?
      ensures ok ==> State() == Pop(old(State())).value
      ensures !ok ==> State() == old(State())
    {
      if nesting == 0 {
        return false;
      }
      nesting := nesting - 1;
      if nesting == 0 && prevEnabled {
        sie := true;
      }
      return true;
    }
  }

  // ---------------------------------------------------------------------
  // UPIntrFreeCell
  // ---------------------------------------------------------------------

  /**
   * The `RefCell` inside `UPIntrFreeCell`, reduced to its borrow flag: the
   * protected value itself is whatever the primitives below keep in fields.
   */
  class UPIntrFreeCell {
    var borrowed: bool

    constructor ()
      ensures !borrowed
    {
      borrowed := false;
    }

    /**
     * `exclusive_access`: pushes, then takes the borrow. A second access while
     * borrowed pops again before the panic (`ok == false`), so the nesting
     * depth and the enable bit are as before the call.
     */
    method ExclusiveAccess(intr: IntrState) returns (ok: bool)
      modifies this, intr
      ensures ok <==> !old(borrowed)
      ensures borrowed
      ensures ok ==> intr.State() == Push(old(intr.State()))
      ensures !ok ==> intr.nesting == old(intr.nesting) && intr.sie == old(intr.sie)
    {
      intr.PushOff();
      if borrowed {
        PushPopRestores(old(intr.State()));
        var _ := intr.PopOff();
        return false;
      }
      borrowed := true;
      return true;
    }

    /** Dropping the guard: `pop_off`, then the borrow ends. */
    method Release(intr: IntrState) returns (ok: bool)
      modifies this, intr
      ensures ok <==> Pop(old(intr.State())).Some?
      ensures ok ==> intr.State() == Pop(old(intr.State())).value && !borrowed
      ensures !ok ==> intr.State() == old(intr.State()) && borrowed == old(borrowed)
    {
      ok := intr.PopOff();
      if ok {
        borrowed := false;
      }
    }
  }

  // ---------------------------------------------------------------------
  // MutexBlocking
  // ---------------------------------------------------------------------

  /** `MutexBlockingInner`. */
  datatype MutexState = MutexState(locked: bool, waiting: seq<ThreadId>)

  /** Nobody waits on a free mutex. */
  ghost predicate MutexInv(m: MutexState) {
    !m.locked ==> m.waiting == []
  }

  /** `lock(tid)`: take a free mutex, or queue behind the holder. */
  function MutexLock(m: MutexState, tid: ThreadId): (r: (MutexState, bool))
    ensures r.1 <==> !m.locked
    ensures r.0.locked
    ensures r.1 ==> r.0.waiting == m.waiting
    ensures !r.1 ==> r.0.waiting == m.waiting + [tid]
  {
    if m.locked then (MutexState(true, m.waiting + [tid]), false)
    else (MutexState(true, m.waiting), true)
  }

  /**
   * `unlock()`: None is the panic on a free mutex. Otherwise the oldest
   * waiter inherits the mutex (it stays locked), or with nobody waiting the
   * mutex is freed.
   */
  function MutexUnlock(m: MutexState): (r: Option<(MutexState, Option<ThreadId>)>)
    ensures r.None? <==> !m.locked
    ensures r.Some? && m.waiting != [] ==>
      r.value.1 == Some(m.waiting[0]) && r.value.0 == MutexState(true, m.waiting[1..])
    ensures r.Some? && m.waiting == [] ==> r.value == (MutexState(false, []), None)
  {
    if !m.locked then None
    else if m.waiting != [] then Some((MutexState(true, m.waiting[1..]), Some(m.waiting[0])))
    else Some((MutexState(false, []), None))
  }

  /** Both operations keep `MutexInv`. */
  lemma MutexInvKept(m: MutexState, tid: ThreadId)
    requires MutexInv(m)
    ensures MutexInv(MutexLock(m, tid).0)
    ensures MutexUnlock(m).Some? ==> MutexInv(MutexUnlock(m).value.0)
  {
  }

  /**
   * Hand-off is first come, first served: after the holder and then the
   * threads `ts` have called `lock`, successive unlocks wake `ts` in order and
   * the last one frees the mutex.
   */
  lemma {:induction false} MutexFifo(m: MutexState, ts: seq<ThreadId>)
    requires m.locked && m.waiting == []
    ensures LockAll(m, ts) == MutexState(true, ts)
    ensures UnlockAll(MutexState(true, ts)) == (ts, MutexState(false, []))
  {
    LockAllQueues(m, ts);
    UnlockAllWakes(ts);
  }

  /** `lock` by each of `ts` in turn. */
  function LockAll(m: MutexState, ts: seq<ThreadId>): (r: MutexState)
    ensures m.locked ==> r.locked
    decreases |ts|
  {
    if ts == [] then m else LockAll(MutexLock(m, ts[0]).0, ts[1..])
  }

  /** `unlock` until the mutex is free: the threads woken, in order, and the final state. */
  function UnlockAll(m: MutexState): (r: (seq<ThreadId>, MutexState))
    requires m.locked
    ensures |r.0| == |m.waiting|
    decreases |m.waiting|
  {
    var (m', w) := MutexUnlock(m).value;
    if w.None? then ([], m') else
      var (rest, fin) := UnlockAll(m');
      ([w.value] + rest, fin)
  }

  lemma {:induction false} LockAllQueues(m: MutexState, ts: seq<ThreadId>)
    requires m.locked
    ensures LockAll(m, ts) == MutexState(true, m.waiting + ts)
    decreases |ts|
  {
    if ts != [] {
      LockAllQueues(MutexLock(m, ts[0]).0, ts[1..]);
      assert m.waiting + [ts[0]] + ts[1..] == m.waiting + ts;
    }
  }

  lemma {:induction false} UnlockAllWakes(ts: seq<ThreadId>)
    ensures UnlockAll(MutexState(true, ts)) == (ts, MutexState(false, []))
    decreases |ts|
  {
    if ts != [] {
      UnlockAllWakes(ts[1..]);
      assert [ts[0]] + ts[1..] == ts;
    }
  }

  /** `MutexBlocking`, whose inner record lives behind its `UPIntrFreeCell`. */
  class MutexBlocking {
    var locked: bool
    var waiting: seq<ThreadId>

    function State(): MutexState
      reads this
    {
      MutexState(locked, waiting)
    }

    /** `new()`: free, nobody waiting. */
    constructor ()
      ensures State() == MutexState(false, []) && MutexInv(State())
    {
      locked, waiting := false, [];
    }

    method Lock(tid: ThreadId) returns (acquired: bool)
      modifies this
      ensures (State(), acquired) == MutexLock(old(State()), tid)
    {
      if locked {
        waiting := waiting + [tid];
        acquired := false;
      } else {
        locked := true;
        acquired := true;
      }
    }

    /** `ok == false` is the panic on a free mutex. */
    method Unlock() returns (ok: bool, woken: Option<ThreadId>)
      modifies this
      ensures ok <==> MutexUnlock(old(State())).Some?
      ensures ok ==> (State(), woken) == MutexUnlock(old(State())).value
      ensures !ok ==> State() == old(State())
    {
      if !locked {
        return false, None;
      }
      if waiting != [] {
        woken := Some(waiting[0]);
        waiting := waiting[1..];
      } else {
        locked := false;
        woken := None;
      }
      ok := true;
    }
  }

  // ---------------------------------------------------------------------
  // Semaphore
  // ---------------------------------------------------------------------

  /** `SemaphoreInner`. */
  datatype SemState = SemState(count: int, waiting: seq<ThreadId>)

  /** A negative count is minus the number of blocked threads. */
  ghost predicate SemInv(s: SemState) {
    |s.waiting| == if s.count < 0 then -s.count else 0
  }

  /** `new(n)`. */
  function SemNew(n: nat): (s: SemState)
    ensures SemInv(s) && s.count == n
  {
    SemState(n, [])
  }

  /** `down(tid)`: take a unit, blocking (queued, false) when none is left. */
  function SemDown(s: SemState, tid: ThreadId): (r: (SemState, bool))
    ensures r.0.count == s.count - 1
    ensures r.1 <==> s.count - 1 >= 0
    ensures r.1 ==> r.0.waiting == s.waiting
    ensures !r.1 ==> r.0.waiting == s.waiting + [tid]
  {
    var c := s.count - 1;
    if c < 0 then (SemState(c, s.waiting + [tid]), false) else (SemState(c, s.waiting), true)
  }

  /** `up()`: return a unit and wake the oldest waiter, if any. */
  function SemUp(s: SemState): (r: (SemState, Option<ThreadId>))
    ensures r.0.count == s.count + 1
    ensures s.waiting == [] ==> r == (SemState(s.count + 1, []), None)
    ensures s.waiting != [] ==> r == (SemState(s.count + 1, s.waiting[1..]), Some(s.waiting[0]))
  {
    if s.waiting == [] then (SemState(s.count + 1, []), None)
    else (SemState(s.count + 1, s.waiting[1..]), Some(s.waiting[0]))
  }

  /**
   * Both operations keep `SemInv`; under it, `up` wakes a thread exactly when
   * the count was negative.
   */
  lemma SemInvKept(s: SemState, tid: ThreadId)
    requires SemInv(s)
    ensures SemInv(SemDown(s, tid).0)
    ensures SemInv(SemUp(s).0)
    ensures SemUp(s).1.Some? <==> s.count < 0
  {
  }

  /** A `down` that blocked is matched by the next `up`, which wakes that thread. */
  lemma DownUpWakes(s: SemState, tid: ThreadId)
    requires SemInv(s) && s.count <= 0
    ensures !SemDown(s, tid).1
    ensures s.waiting == [] ==> SemUp(SemDown(s, tid).0) == (SemState(s.count, []), Some(tid))
  {
    if s.waiting == [] {
      assert ([] + [tid])[1..] == [];
    }
  }

  /** `Semaphore`. */
  class Semaphore {
    var count: int
    var waiting: seq<ThreadId>

    function State(): SemState
      reads this
    {
      SemState(count, waiting)
    }

    constructor (n: nat)
      ensures State() == SemNew(n)
    {
      count, waiting := n, [];
    }

    method Down(tid: ThreadId) returns (acquired: bool)
      modifies this
      ensures (State(), acquired) == SemDown(old(State()), tid)
    {
      count := count - 1;
      if count < 0 {
        waiting := waiting + [tid];
        acquired := false;
      } else {
        acquired := true;
      }
    }

    method Up() returns (woken: Option<ThreadId>)
      modifies this
      ensures (State(), woken) == SemUp(old(State()))
    {
      count := count + 1;
      if waiting == [] {
        woken := None;
      } else {
        woken := Some(waiting[0]);
        waiting := waiting[1..];
      }
    }
  }

  // ---------------------------------------------------------------------
  // Condvar
  // ---------------------------------------------------------------------

  /**
   * `wait_with_mutex(tid, mutex)` on a mutex state: `unlock().unwrap()` then
   * `lock(tid)`. None is a panic (free mutex, or nobody to hand it to).
   */
  function CondWait(m: MutexState, tid: ThreadId): (r: Option<(MutexState, bool, ThreadId)>)
    ensures r.Some? <==> m.locked && m.waiting != []
    ensures r.Some? ==> r.value.2 == m.waiting[0]
  {
    match MutexUnlock(m)
    case None => None
    case Some((m1, w)) =>
      if w.None? then None
      else
        var (m2, got) := MutexLock(m1, tid);
        Some((m2, got, w.value))
  }

  /**
   * Because `unlock` hands the mutex to the woken waiter, the caller's
   * `lock` that follows always queues: the first component of the pair
   * `wait_with_mutex` returns is always false.
   */
  lemma WaitWithMutexQueues(m: MutexState, tid: ThreadId)
    requires m.locked && m.waiting != []
    ensures CondWait(m, tid) == Some((MutexState(true, m.waiting[1..] + [tid]), false, m.waiting[0]))
  {
  }

  /** `Condvar`: its queue of waiting threads. */
  class Condvar {
    var waiting: seq<ThreadId>

    constructor ()
      ensures waiting == []
    {
      waiting := [];
    }

    /** `signal()`: wake the oldest waiter, if any. */
    method Signal() returns (woken: Option<ThreadId>)
      modifies this
      ensures old(waiting) == [] ==> woken.None? && waiting == []
      ensures old(waiting) != [] ==> woken == Some(old(waiting)[0]) && waiting == old(waiting)[1..]
    {
      if waiting == [] {
        woken := None;
      } else {
        woken := Some(waiting[0]);
        waiting := waiting[1..];
      }
    }

    /** `wait_no_sched(tid)`: queue and tell the caller to block. */
    method WaitNoSched(tid: ThreadId) returns (proceed: bool)
      modifies this
      ensures !proceed && waiting == old(waiting) + [tid]
    {
      waiting := waiting + [tid];
      proceed := false;
    }

    /**
     * `wait_with_mutex(tid, mutex)`: this condvar's own queue is left alone.
     * `ok == false` is the panic of `unlock` or of its `unwrap`; in the
     * second case the mutex has already been released.
     */
    method WaitWithMutex(tid: ThreadId, mutex: MutexBlocking) returns (ok: bool, gotLock: bool, woken: Option<ThreadId>)
      modifies mutex
      ensures ok <==> CondWait(old(mutex.State()), tid).Some?
      ensures ok ==> woken.Some? && (mutex.State(), gotLock, woken.value) == CondWait(old(mutex.State()), tid).value
      ensures !ok && MutexUnlock(old(mutex.State())).None? ==> mutex.State() == old(mutex.State())
      ensures !ok && MutexUnlock(old(mutex.State())).Some? ==> mutex.State() == MutexUnlock(old(mutex.State())).value.0
      ensures waiting == old(waiting)
    {
      var unlocked, w := mutex.Unlock();
      if !unlocked || w.None? {
        return false, false, None;
      }
      gotLock := mutex.Lock(tid);
      return true, gotLock, w;
    }
  }
}
