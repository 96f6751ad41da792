/**
 * The ch5 kernel: processes with a parent/child tree, scheduled FIFO by the
 * task-manage process manager. Apps are found by name in the NUL-separated
 * name table the linker script emits, loaded with the ch4 ELF loader, and
 * created by `fork`/`exec` from the first process, initproc (pid 0).
 */
module Ch5 {
  import opened Words
  import opened Wrappers
  import opened KernelContext
  import opened SyscallKernel
  import opened Syscall
  import opened TaskManage
  import opened ChapterShared
  import opened Ch4

  /** The first NUL at or after `from`, if any. */
  function NulFrom(s: seq<u8>, from: nat): (r: Option<nat>)
    requires from <= |s|
    ensures r.Some? ==> from <= r.value < |s| && s[r.value] == 0
    ensures r.Some? ==> forall k :: from <= k < r.value ==> s[k] != 0
    ensures r.None? ==> forall k :: from <= k < |s| ==> s[k] != 0
    decreases |s| - from
  {
    if from == |s| then None
    else if s[from] == 0 then Some(from)
    else NulFrom(s, from + 1)
  }

  /** The start of the field after the one starting at `st`: just past its NUL. */
  function NextField(s: seq<u8>, st: Option<nat>): (r: Option<nat>)
    requires st.Some? ==> st.value <= |s|
    ensures r.Some? ==> r.value <= |s|
  {
    match st
    case None => None
    case Some(from) =>
      match NulFrom(s, from)
      case None => None
      case Some(e) => Some(e + 1)
  }

  /** Where field i of the table starts: just past the NUL that ends field i - 1. */
  function FieldStart(s: seq<u8>, i: nat): (r: Option<nat>)
    ensures r.Some? ==> r.value <= |s|
  {
    if i == 0 then Some(0) else NextField(s, FieldStart(s, i - 1))
  }

  /** Once the table has no field i, it has no later one either. */
  lemma {:induction false} FieldStartNone(s: seq<u8>, i: nat, j: nat)
    requires i <= j && FieldStart(s, i).None?
    ensures FieldStart(s, j).None?
    decreases j - i
  {
    if i < j {
      FieldStartNone(s, i + 1, j);
    }
  }

  /** A name as the table holds it: not empty, no NUL inside. */
  predicate NameOk(n: seq<u8>) {
    |n| > 0 && forall k :: 0 <= k < |n| ==> n[k] != 0
  }

  /**
   * The i-th NUL-terminated name of the table, None when it is empty or the
   * table ends before its NUL.
   */
  function NameAt(s: seq<u8>, i: nat): (r: Option<seq<u8>>)
    ensures r.Some? ==> NameOk(r.value)
  {
    NameFrom(s, FieldStart(s, i))
  }

  /** The name of the field starting at `st`: the bytes up to its NUL, None when there are none. */
  function NameFrom(s: seq<u8>, st: Option<nat>): (r: Option<seq<u8>>)
    requires st.Some? ==> st.value <= |s|
    ensures r.Some? ==> NameOk(r.value)
  {
    match st
    case None => None
    case Some(from) =>
      match NulFrom(s, from)
      case None => None
      case Some(e) => if e == from then None else Some(s[from..e])
  }

  /**
   * `app_name_at`: walks to the NUL ending each name up to `index` and
   * returns that name, None for an empty one.
   */
  method AppNameAt(names: seq<u8>, index: nat) returns (r: Option<seq<u8>>)
    ensures r == NameAt(names, index)
  {
    var ptr := 0;
    var i := 0;
    while true
      invariant i <= index && FieldStart(names, i) == Some(ptr)
      decreases index - i
    {
      var start := ptr;
      while ptr < |names| && names[ptr] != 0
        invariant start <= ptr <= |names|
        invariant NulFrom(names, start) == NulFrom(names, ptr)
        decreases |names| - ptr
      {
        ptr := ptr + 1;
      }
      if ptr == |names| {
        FieldStartNone(names, i + 1, index + 1);
        if i < index {
          FieldStartNone(names, i + 1, index);
        }
        return None;
      }
      if i == index {
        if ptr - start == 0 {
          return None;
        }
        return Some(names[start..ptr]);
      }
      ptr := ptr + 1;
      i := i + 1;
    }
  }

  /** The name table the build emits for a list of names: each followed by its NUL. */
  function Join(ns: seq<seq<u8>>): seq<u8> {
    if |ns| == 0 then [] else ns[0] + [0] + Join(ns[1..])
  }

  /** `r` moved on by d. */
  function Shift(r: Option<nat>, d: nat): Option<nat> {
    match r
    case None => None
    case Some(v) => Some(v + d)
  }

  /** The NUL search in `x + b` past x is the search in b, moved by |x|. */
  lemma {:induction false} NulFromShift(x: seq<u8>, b: seq<u8>, st: nat)
    requires st <= |b|
    ensures NulFrom(x + b, |x| + st) == Shift(NulFrom(b, st), |x|)
    decreases |b| - st
  {
    if st < |b| {
      assert (x + b)[|x| + st] == b[st];
      if b[st] != 0 {
        NulFromShift(x, b, st + 1);
      }
    }
  }

  /** In `a + [0] + b` with a free of NUL, the search from inside a stops at the NUL after a. */
  lemma {:induction false} NulFromName(a: seq<u8>, b: seq<u8>, from: nat)
    requires from <= |a| && forall k :: 0 <= k < |a| ==> a[k] != 0
    ensures NulFrom(a + [0] + b, from) == Some(|a|)
    decreases |a| - from
  {
    assert (a + [0] + b)[from] == if from < |a| then a[from] else 0;
    if from < |a| {
      NulFromName(a, b, from + 1);
    }
  }

  /** Stepping over a field of b inside `x + b` is stepping over it in b, moved by |x|. */
  lemma NextFieldShift(x: seq<u8>, b: seq<u8>, st: Option<nat>)
    requires st.Some? ==> st.value <= |b|
    ensures NextField(x + b, Shift(st, |x|)) == Shift(NextField(b, st), |x|)
  {
    if st.Some? {
      NulFromShift(x, b, st.value);
    }
  }

  /** Field i + 1 of `a + [0] + b` is field i of b, moved past `a` and its NUL. */
  lemma {:induction false} FieldStartShift(a: seq<u8>, b: seq<u8>, i: nat)
    requires forall k :: 0 <= k < |a| ==> a[k] != 0
    ensures FieldStart(a + [0] + b, i + 1) == Shift(FieldStart(b, i), |a| + 1)
    decreases i
  {
    if i == 0 {
      NulFromName(a, b, 0);
    } else {
      FieldStartShift(a, b, i - 1);
      NextFieldShift(a + [0], b, FieldStart(b, i - 1));
    }
  }

  /** Name i + 1 of `a + [0] + b` is name i of b. */
  lemma NameAtShift(a: seq<u8>, b: seq<u8>, i: nat)
    requires forall k :: 0 <= k < |a| ==> a[k] != 0
    ensures NameAt(a + [0] + b, i + 1) == NameAt(b, i)
  {
    FieldStartShift(a, b, i);
    NameFromShift(a + [0], b, FieldStart(b, i));
  }

  /** The name of a field of b inside `x + b` is its name in b. */
  lemma NameFromShift(x: seq<u8>, b: seq<u8>, st: Option<nat>)
    requires st.Some? ==> st.value <= |b|
    ensures NameFrom(x + b, Shift(st, |x|)) == NameFrom(b, st)
  {
    if st.Some? {
      NulFromShift(x, b, st.value);
      var e := NulFrom(b, st.value);
      if e.Some? {
        assert (x + b)[|x| + st.value..|x| + e.value] == b[st.value..e.value];
      }
    }
  }

  /** Name 0 of `a + [0] + b` is a. */
  lemma NameAtFirst(a: seq<u8>, b: seq<u8>)
    requires NameOk(a)
    ensures NameAt(a + [0] + b, 0) == Some(a)
  {
    NulFromName(a, b, 0);
    assert (a + [0] + b)[0..|a|] == a;
  }

  /** `app_name_at` on the joined table gives back every name. */
  lemma {:induction false} NameAtJoin(ns: seq<seq<u8>>, i: nat)
    requires forall j :: 0 <= j < |ns| ==> NameOk(ns[j])
    requires i < |ns|
    ensures NameAt(Join(ns), i) == Some(ns[i])
    decreases i
  {
    if i == 0 {
      NameAtFirst(ns[0], Join(ns[1..]));
    } else {
      NameAtJoin(ns[1..], i - 1);
      NameAtShift(ns[0], Join(ns[1..]), i - 1);
    }
  }

  /**
   * The app `get_app_by_name` settles on: index k holds the name, and every
   * earlier index holds another, non-empty one (an empty name ends the
   * search with None).
   */
  predicate Chosen(names: seq<u8>, k: nat, name: seq<u8>) {
    && NameAt(names, k) == Some(name)
    && forall j :: 0 <= j < k ==> NameAt(names, j).Some? && NameAt(names, j) != Some(name)
  }

  /** `get_app_by_name`: the app at the first index whose name matches; `apps` has one entry per app. */
  method GetAppByName(names: seq<u8>, apps: seq<seq<u8>>, name: seq<u8>) returns (r: Option<seq<u8>>)
    ensures r.Some? <==> exists k :: 0 <= k < |apps| && Chosen(names, k, name)
    ensures forall k :: 0 <= k < |apps| && Chosen(names, k, name) ==> r == Some(apps[k])
  {
    var i := 0;
    while i < |apps|
      invariant i <= |apps|
      invariant forall j :: 0 <= j < i ==> NameAt(names, j).Some? && NameAt(names, j) != Some(name)
    {
      var n := AppNameAt(names, i);
      if n.None? {
        return None;
      }
      if n.value == name {
        assert Chosen(names, i, name);
        return Some(apps[i]);
      }
      i := i + 1;
    }
    return None;
  }

  /** On the joined table, the search finds the first app with the name. */
  lemma ChosenJoin(ns: seq<seq<u8>>, k: nat)
    requires forall j :: 0 <= j < |ns| ==> NameOk(ns[j])
    requires k < |ns| && forall j :: 0 <= j < k ==> ns[j] != ns[k]
    ensures Chosen(Join(ns), k, ns[k])
  {
    NameAtJoin(ns, k);
    forall j | 0 <= j < k
      ensures NameAt(Join(ns), j) == Some(ns[j])
    {
      NameAtJoin(ns, j);
    }
  }

  /**
   * The child context of `fork`: an empty context that takes the parent's
   * pc, registers and flags, then a0 = 0 so the child sees fork return 0.
   */
  function ForkContext(p: Context): (c: Context)
    requires p.Valid()
    ensures c.Valid() && c.A(0) == 0
    ensures c.sepc == p.sepc && c.supervisor == p.supervisor && c.interrupt == p.interrupt
    ensures forall n :: 1 <= n <= 31 && n != 10 ==> c.X(n) == p.X(n)
  {
    EmptyContext().(sepc := p.sepc, x := p.x, supervisor := p.supervisor, interrupt := p.interrupt)
      .WithSp(p.Sp()).WithA(0, 0)
  }

  /** The process `fork` adds: the child context, a copy of the parent's address space, the same stack top. */
  function Child(parent: Process): (c: Process)
    requires parent.context.Valid()
    ensures c.image == parent.image && c.stackTop == parent.stackTop
  {
    Process(ForkContext(parent.context), parent.image, parent.stackTop)
  }

  /**
   * `fork` as written: the child's pid is the next value of the global
   * counter. The counter starts at 0 and initproc was given pid 0 without
   * drawing it, so the first fork hands out 0 again.
   */
  method ForkAsWritten(pm: PManager<Process>, counter: IdCounter) returns (r: isize)
    requires forall p :: p in pm.store ==> pm.store[p].context.Valid()
    modifies pm, counter
    ensures old(pm.Current()).None? ==> r == -1 && pm.store == old(pm.store) && pm.ready == old(pm.ready)
    ensures old(pm.Current()).Some? ==>
      var child := ProcId(old(counter.next));
      && r == AsIsize(child.v)
      && pm.store == old(pm.store)[child := Child(old(pm.Current()).value)]
      && pm.ready == old(pm.ready) + [child]
      && pm.relations == AddRelations(old(pm.relations), child, old(pm.current).value)
  {
    var parent := pm.Current();
    if parent.None? {
      return -1;
    }
    var id := counter.New();
    var child := ProcId(id);
    pm.Add(child, Child(parent.value), pm.current.value);
    r := AsIsize(id);
  }

  /**
   * The first fork from initproc as written: the child gets pid 0, so it
   * takes initproc's own store entry (two processes, one entry) and
   * initproc is listed as its own child.
   */
  lemma FirstForkCollides(store: map<ProcId, Process>, rels: map<ProcId, ProcRel>, child: Process)
    requires INIT_PID in store
    ensures ProcId(0) == INIT_PID
    ensures store[INIT_PID := child].Keys == store.Keys
    ensures INIT_PID in AddRelations(rels, INIT_PID, INIT_PID)[INIT_PID].children
  {
  }

  /**
   * `fork` with the pid drawn as ch6 draws it (`alloc_pid_nonzero`): the
   * child never takes pid 0, so initproc keeps its entry.
   */
  method Fork(pm: PManager<Process>, counter: IdCounter) returns (r: isize)
    requires forall p :: p in pm.store ==> pm.store[p].context.Valid()
    modifies pm, counter
    ensures old(pm.Current()).None? ==> r == -1 && pm.store == old(pm.store) && pm.ready == old(pm.ready)
    ensures old(pm.Current()).Some? ==>
      exists child: ProcId ::
        && child != INIT_PID && r == AsIsize(child.v)
        && pm.store == old(pm.store)[child := Child(old(pm.Current()).value)]
        && pm.ready == old(pm.ready) + [child]
        && pm.relations == AddRelations(old(pm.relations), child, old(pm.current).value)
    ensures INIT_PID in old(pm.store) ==> INIT_PID in pm.store && pm.store[INIT_PID] == old(pm.store)[INIT_PID]
  {
    var parent := pm.Current();
    if parent.None? {
      return -1;
    }
    var child := AllocPidNonzero(counter);
    pm.Add(child, Child(parent.value), pm.current.value);
    r := AsIsize(child.v);
  }

  /**
   * The argument swap of `waitpid`: with a null exit-code pointer the call
   * waits for any child and takes the pid argument as the pointer.
   */
  function WaitpidArgs(pid: isize, ptr: usize): (r: (isize, usize))
    ensures ptr == 0 ==> r.0 == -1 && r.1 == AsUsize(pid)
    ensures ptr != 0 ==> r == (pid, ptr)
  {
    if ptr == 0 then (-1, AsUsize(pid)) else (pid, ptr)
  }

  /**
   * `waitpid` in ch5: the manager's answer after the swap. A reaped child's
   * pid is returned whether or not its exit code can be stored; `write` is
   * the store the kernel attempts (address and `code as i32`), made only for
   * a non-null pointer.
   */
  method Waitpid(pm: PManager<Process>, pid: isize, ptr: usize) returns (r: isize, write: Option<(usize, i32)>)
    modifies pm
    ensures pm.store == old(pm.store) && pm.ready == old(pm.ready) && pm.current == old(pm.current)
    ensures var (p, q) := WaitpidArgs(pid, ptr);
      && (old(pm.current).None? || old(pm.current).value !in old(pm.relations) ==>
            r == -1 && write.None? && pm.relations == old(pm.relations))
      && (old(pm.current).Some? && old(pm.current).value in old(pm.relations) ==>
            var rel := old(pm.relations)[old(pm.current).value];
            var step := if p == -1 then rel.WaitAnyChild() else rel.WaitChild(WaitTarget(p));
            && r == WaitpidValue(step.1, true)
            && pm.relations == old(pm.relations)[old(pm.current).value := step.0]
            && write == (if step.1.Some? && step.1 != Some(SENTINEL) && q != 0
                         then Some((q, AsI32(AsUsize(step.1.value.1)))) else None))
  {
    var (p, q) := WaitpidArgs(pid, ptr);
    var res := pm.Wait(WaitTarget(p));
    r := WaitpidValue(res, true);
    write := None;
    if res.Some? && res != Some(SENTINEL) && q != 0 {
      write := Some((q, AsI32(AsUsize(res.value.1))));
    }
  }

  /** `exit(code)`: the running process exits with the code the user passed. */
  method SysExit(pm: PManager<Process>, code: i32) returns (r: isize)
    modifies pm
    ensures r == 0 && pm.current == None && pm.ready == old(pm.ready)
    ensures old(pm.current).Some? ==>
      pm.store == old(pm.store) - {old(pm.current).value} &&
      pm.relations == ExitRelations(old(pm.relations), old(pm.current).value, code)
    ensures old(pm.current).None? ==> pm.store == old(pm.store) && pm.relations == old(pm.relations)
  {
    pm.MakeCurrentExited(code);
    r := 0;
  }

  /** `sched_yield`: the running process goes to the back of the queue. */
  method SysSchedYield<P>(pm: PManager<P>) returns (r: isize)
    modifies pm
    ensures r == 0 && pm.current == None && pm.store == old(pm.store) && pm.relations == old(pm.relations)
    ensures pm.ready == if old(pm.current).Some? then old(pm.ready) + [old(pm.current).value] else old(pm.ready)
  {
    pm.MakeCurrentSuspend();
    r := 0;
  }

  /** What the loop does with the process after a trap. */
  datatype Disposal = Terminate(code: isize) | Suspend(context: Context) | Keep(context: Context)

  /**
   * The trap rules of the ch5 loop as written, on the restored context c:
   * exit with the syscall's value on EXIT, -2 on an unsupported syscall,
   * -3 on any trap but a syscall and a breakpoint; a finished syscall gets
   * a0 and the next pc and is suspended; a breakpoint only moves the pc on.
   */
  function DisposalAsWritten(c: Context, cause: Cause, result: SyscallResult): (d: Disposal)
    requires c.Valid()
    ensures cause == Breakpoint ==> d == Keep(c.MoveNext())
  {
    match cause
    case UserEnvCall =>
      (match result
       case Done(ret) => if c.A(7) == EXIT then Terminate(ret) else Suspend(c.WithA(0, AsUsize(ret)).MoveNext())
       case Unsupported(_) => Terminate(-2))
    case Breakpoint => Keep(c.MoveNext())
    case _ => Terminate(-3)
  }

  /** The trap rules with a breakpoint also suspending the process, so that it runs again. */
  function TrapDisposal(c: Context, cause: Cause, result: SyscallResult): (d: Disposal)
    requires c.Valid()
    ensures cause != Breakpoint ==> d == DisposalAsWritten(c, cause, result)
    ensures cause == Breakpoint ==> d == Suspend(c.MoveNext())
    ensures d.Terminate? <==> cause == OtherTrap || cause == SupervisorTimer || (cause == UserEnvCall && (result.Unsupported? || c.A(7) == EXIT))
    ensures d.Terminate? ==> d.code == (if cause == UserEnvCall then (if result.Unsupported? then -2 else result.value) else -3)
    ensures cause == UserEnvCall && result.Done? && c.A(7) != EXIT ==>
      d.context.A(0) == AsUsize(result.value) && d.context.sepc == WrappingAdd(c.sepc, 4)
  {
    if cause == Breakpoint then Suspend(c.MoveNext()) else DisposalAsWritten(c, cause, result)
  }

  /**
   * The loop's handling of process `pid` once the syscall handler (if any)
   * has run: an exit goes through `make_current_exited`, a new context is
   * written back, and a suspension re-queues the running process.
   */
  method Apply(pm: PManager<Process>, pid: ProcId, d: Disposal)
    modifies pm
    ensures d.Terminate? ==> pm.current == None && pm.ready == old(pm.ready)
    ensures d.Terminate? && old(pm.current).Some? ==>
      pm.store == old(pm.store) - {old(pm.current).value} &&
      pm.relations == ExitRelations(old(pm.relations), old(pm.current).value, d.code)
    ensures d.Terminate? && old(pm.current).None? ==> pm.store == old(pm.store) && pm.relations == old(pm.relations)
    ensures !d.Terminate? ==>
      && pm.relations == old(pm.relations)
      && pm.store == if pid in old(pm.store) then old(pm.store)[pid := old(pm.store)[pid].(context := d.context)] else old(pm.store)
    ensures d.Suspend? ==> pm.current == None
    ensures d.Suspend? ==> pm.ready == if old(pm.current).Some? then old(pm.ready) + [old(pm.current).value] else old(pm.ready)
    ensures d.Keep? ==> pm.current == old(pm.current) && pm.ready == old(pm.ready)
  {
    match d {
      case Terminate(code) =>
        pm.MakeCurrentExited(code);
      case Suspend(c) =>
        if pid in pm.store {
          pm.store := pm.store[pid := pm.store[pid].(context := c)];
        }
        pm.MakeCurrentSuspend();
      case Keep(c) =>
        if pid in pm.store {
          pm.store := pm.store[pid := pm.store[pid].(context := c)];
        }
    }
  }

  /**
   * The exit path: the handler's `exit` records the user's code, and the
   * loop's own `make_current_exited` afterwards finds nothing running and
   * changes nothing.
   */
  method ExitPath(pm: PManager<Process>, pid: ProcId, code: i32, ret: isize)
    modifies pm
    ensures pm.current == None && pm.ready == old(pm.ready)
    ensures old(pm.current).Some? ==>
      pm.store == old(pm.store) - {old(pm.current).value} &&
      pm.relations == ExitRelations(old(pm.relations), old(pm.current).value, code)
  {
    var _ := SysExit(pm, code);
    Apply(pm, pid, Terminate(ret));
  }

  /**
   * Left as the as-written breakpoint leaves it: a process that is still
   * stored but not queued is never picked by `find_next` again, and with an
   * empty queue the next `find_next` finds nothing, so the kernel shuts down
   * with the process alive.
   */
  lemma Stranded(ready: seq<ProcId>, store: map<ProcId, Process>, pid: ProcId)
    requires pid in store && pid !in ready
    ensures Skipped(ready, store) < |ready| ==> ready[Skipped(ready, store)] != pid
    ensures ready == [] ==> Skipped(ready, store) == |ready|
  {
  }

  /**
   * A suspended process behind a queue of ids whose tasks are gone is the
   * next one `find_next` picks.
   */
  lemma {:induction false} Requeued(ready: seq<ProcId>, store: map<ProcId, Process>, pid: ProcId)
    requires pid in store && forall j :: 0 <= j < |ready| ==> ready[j] !in store
    ensures Skipped(ready + [pid], store) == |ready| && (ready + [pid])[|ready|] == pid
  {
    SkippedFrom(ready + [pid], store, |ready|);
  }

  /** `getpid`: the running pid, -1 when there is none. */
  function Getpid(current: Option<ProcId>): (r: isize)
    ensures current.None? ==> r == -1
    ensures current.Some? && current.value.v <= ISIZE_MAX ==> r == current.value.v
  {
    match current
    case None => -1
    case Some(p) => AsIsize(p.v)
  }
}
