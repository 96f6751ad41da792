/**
 * The kernel side of the syscall crate: the once-only registration of one
 * handler per category, and `handle`, which picks the handler for a syscall
 * number and converts the six raw argument words to that handler's
 * parameter types.
 *
 * The handlers themselves are trait objects defined by the chapter kernels.
 * Here a registered handler is an opaque `HandlerId`, the call it receives is
 * a `Call` value, and what it answers is the parameter `answer`.
 */
module SyscallKernel {
  import opened Words
  import opened Wrappers
  import opened Syscall

  /** The eight handler traits. */
  datatype Category = ProcessH | IOH | MemoryH | SchedulingH | ClockH | SignalH | ThreadH | SyncMutexH

  /** A registered `&'static dyn Trait`, known only by identity. */
  type HandlerId = nat

  /** `Caller { entity, flow }`. */
  datatype Caller = Caller(entity: usize, flow: usize)

  /** The raw argument words `[usize; 6]`. */
  type Args = a: seq<usize> | |a| == 6 witness [0, 0, 0, 0, 0, 0]

  /** One handler-method invocation, with its arguments already converted. */
  datatype Call =
    // Process
    | Fork | Exec(path: usize) | Exit(exitCode: i32) | Wait(exitCodePtr: usize)
    | Waitpid(pid: isize, exitCodePtr: usize) | Getpid
    // IO
    | Read(fd: usize, buf: usize, count: usize) | Write(fd: usize, buf: usize, count: usize)
    | Open(path: usize, flags: u32) | Close(fd: usize)
    // Memory
    | Mmap(addr: usize, len: usize, prot: usize, mapFlags: usize, mapFd: isize, offset: usize)
    | Munmap(addr: usize, len: usize)
    // Scheduling
    | SchedYield
    // Clock
    | ClockGettime(clockid: usize, tp: usize)
    // Signal
    | Kill(pid: isize, signum: u8) | Sigaction(signum: u8, action: usize, oldAction: usize)
    | Sigprocmask(mask: usize) | Sigreturn
    // Thread
    | ThreadCreate(entry: usize, arg: usize) | Gettid | Waittid(tid: usize)
    // SyncMutex
    | SemaphoreCreate(resCount: usize) | SemaphoreUp(semId: usize) | SemaphoreDown(semId: usize)
    | MutexCreate(blocking: bool) | MutexLock(mutexId: usize) | MutexUnlock(mutexId: usize)
    | CondvarCreate | CondvarSignal(condvarId: usize) | CondvarWait(condvarId: usize, mutexId: usize)

  /** The trait that declares each handler method. */
  function CategoryOf(c: Call): Category {
    match c
    case Fork | Exec(_) | Exit(_) | Wait(_) | Waitpid(_, _) | Getpid => ProcessH
    case Read(_, _, _) | Write(_, _, _) | Open(_, _) | Close(_) => IOH
    case Mmap(_, _, _, _, _, _) | Munmap(_, _) => MemoryH
    case SchedYield => SchedulingH
    case ClockGettime(_, _) => ClockH
    case Kill(_, _) | Sigaction(_, _, _) | Sigprocmask(_) | Sigreturn => SignalH
    case ThreadCreate(_, _) | Gettid | Waittid(_) => ThreadH
    case _ => SyncMutexH
  }

  /** `SyscallResult`. */
  datatype SyscallResult = Done(value: isize) | Unsupported(id: SyscallId)

  /** The numbers `handle` has an arm for. */
  const LISTED: set<usize> := {
    READ, WRITE, OPEN, CLOSE, FORK, EXECVE, EXIT, WAIT4, GETPID, SCHED_YIELD,
    CLOCK_GETTIME, KILL, SIGACTION, SIGPROCMASK, RT_SIGRETURN, THREAD_CREATE,
    GETTID, WAITTID, SEMOP, MUTEX_CREATE, MUTEX_LOCK, MUTEX_UNLOCK,
    CONDVAR_CREATE, CONDVAR_SIGNAL, CONDVAR_WAIT }

  /** `v as u8`. */
  function AsU8(v: usize): (r: u8)
    ensures r == v % 0x100
  {
    v % 0x100
  }

  /** `v as u32`. */
  function AsU32(v: usize): (r: u32)
    ensures r == v % U32_LIMIT
  {
    v % U32_LIMIT
  }

  /**
   * The arms of `handle`: which handler method a syscall number reaches and
   * how the argument words are converted. None is the catch-all arm.
   */
  function Route(id: usize, args: Args): (r: Option<Call>)
    ensures r.None? <==> id !in LISTED
    ensures id == WAIT4 ==> r == Some(Waitpid(AsIsize(args[0]), args[1]))
    ensures id == EXIT ==> r == Some(Exit(AsI32(args[0])))
    ensures id == SEMOP ==> r == Some(SemaphoreCreate(args[0]))
    ensures id == MUTEX_CREATE ==> r == Some(MutexCreate(args[0] != 0))
    ensures id == CLONE ==> r == Some(Fork)
  {
    if id == READ then Some(Read(args[0], args[1], args[2]))
    else if id == WRITE then Some(Write(args[0], args[1], args[2]))
    else if id == OPEN then Some(Open(args[0], AsU32(args[1])))
    else if id == CLOSE then Some(Close(args[0]))
    else if id == FORK then Some(Fork)
    else if id == EXECVE then Some(Exec(args[0]))
    else if id == EXIT then Some(Exit(AsI32(args[0])))
    else if id == WAIT4 then Some(Waitpid(AsIsize(args[0]), args[1]))
    else if id == GETPID then Some(Getpid)
    else if id == SCHED_YIELD then Some(SchedYield)
    else if id == CLOCK_GETTIME then Some(ClockGettime(args[0], args[1]))
    else if id == KILL then Some(Kill(AsIsize(args[0]), AsU8(args[1])))
    else if id == SIGACTION then Some(Sigaction(AsU8(args[0]), args[1], args[2]))
    else if id == SIGPROCMASK then Some(Sigprocmask(args[0]))
    else if id == RT_SIGRETURN then Some(Sigreturn)
    else if id == THREAD_CREATE then Some(ThreadCreate(args[0], args[1]))
    else if id == GETTID then Some(Gettid)
    else if id == WAITTID then Some(Waittid(args[0]))
    else if id == SEMOP then Some(SemaphoreCreate(args[0]))
    else if id == MUTEX_CREATE then Some(MutexCreate(args[0] != 0))
    else if id == MUTEX_LOCK then Some(MutexLock(args[0]))
    else if id == MUTEX_UNLOCK then Some(MutexUnlock(args[0]))
    else if id == CONDVAR_CREATE then Some(CondvarCreate)
    else if id == CONDVAR_SIGNAL then Some(CondvarSignal(args[0]))
    else if id == CONDVAR_WAIT then Some(CondvarWait(args[0], args[1]))
    else None
  }

  /**
   * No syscall number reaches the memory handler, `wait`, or the semaphore
   * `up`/`down` methods: those handler methods are registered but dead.
   */
  lemma {:induction false} UnroutedMethods(id: usize, args: Args)
    ensures Route(id, args).Some? ==> CategoryOf(Route(id, args).value) != MemoryH
    ensures Route(id, args).Some? ==> !Route(id, args).value.Wait?
    ensures Route(id, args).Some? ==>
      !Route(id, args).value.SemaphoreUp? && !Route(id, args).value.SemaphoreDown?
  {
  }

  /** The numbers in the table that `handle` does not list. */
  lemma UnlistedNumbers()
    ensures EXIT_GROUP !in LISTED && WAITID !in LISTED && SEMGET !in LISTED && SEMCTL !in LISTED
    ensures CLONE in LISTED
  {
  }

  /** The registered handlers: one `Once` cell per category. */
  type Handlers = map<Category, HandlerId>

  /** `init_*(h)`: `call_once` keeps the first handler given for a category. */
  function Register(hs: Handlers, c: Category, h: HandlerId): (r: Handlers)
    ensures c in r && r[c] == (if c in hs then hs[c] else h)
    ensures r.Keys == hs.Keys + {c}
    ensures forall d :: d in hs && d != c ==> r[d] == hs[d]
  {
    if c in hs then hs else hs[c := h]
  }

  /** First registration wins: later `init_*` calls for the same category change nothing. */
  lemma {:induction false} RegisterFirstWins(hs: Handlers, c: Category, first: HandlerId, later: seq<HandlerId>)
    ensures RegisterAll(Register(hs, c, first), c, later) == Register(hs, c, first)
    decreases |later|
  {
    if later != [] {
      RegisterFirstWins(hs, c, first, later[1..]);
    }
  }

  /** `init_*` for one category with each of `hs` in turn. */
  function RegisterAll(hs: Handlers, c: Category, later: seq<HandlerId>): (r: Handlers)
    ensures r.Keys == if later == [] then hs.Keys else hs.Keys + {c}
    decreases |later|
  {
    if later == [] then hs else RegisterAll(Register(hs, c, later[0]), c, later[1..])
  }

  /**
   * `handle(caller, id, args)`: Done with exactly what the registered handler
   * answers, or Unsupported(id) for an unlisted number or a category never
   * registered.
   */
  function Handle(hs: Handlers, caller: Caller, id: usize, args: Args,
                  answer: (HandlerId, Caller, Call) -> isize): (r: SyscallResult)
    ensures r.Unsupported? <==> Route(id, args).None? || CategoryOf(Route(id, args).value) !in hs
    ensures r.Unsupported? ==> r.id == SyscallId(id)
    ensures r.Done? ==> r.value == answer(hs[CategoryOf(Route(id, args).value)], caller, Route(id, args).value)
  {
    match Route(id, args)
    case None => Unsupported(SyscallId(id))
    case Some(call) =>
      var c := CategoryOf(call);
      if c in hs then Done(answer(hs[c], caller, call)) else Unsupported(SyscallId(id))
  }

  /** With no handler registered at all, every syscall is unsupported. */
  lemma NothingRegistered(caller: Caller, id: usize, args: Args, answer: (HandlerId, Caller, Call) -> isize)
    ensures Handle(map[], caller, id, args, answer) == Unsupported(SyscallId(id))
  {
  }

  /** The eight `Once` statics. */
  class Registry {
    var handlers: Handlers

    constructor ()
      ensures handlers == map[]
    {
      handlers := map[];
    }

    /** `init_process`, `init_io`, ... for category `c`. */
    method Init(c: Category, h: HandlerId)
      modifies this
      ensures handlers == Register(old(handlers), c, h)
    {
      if c !in handlers {
        handlers := handlers[c := h];
      }
    }
  }
}
