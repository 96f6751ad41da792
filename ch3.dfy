/**
 * The ch3 kernel: up to 16 statically linked apps run round-robin, each
 * from its own user stack. The static task table and the `current` index
 * are the state; the scheduling loop looks for the next unfinished task,
 * runs it until it traps, and then applies one of the trap rules below.
 */
module Ch3 {
  import opened Words
  import opened Wrappers
  import opened KernelContext
  import opened Syscall
  import opened SyscallKernel
  import opened ChapterShared

  /** `MAX_APP_NUM`: the size of the static task table. */
  const MAX_APP_NUM: nat := 16

  /** `TaskControlBlock`: the saved user context and whether the task has finished. */
  datatype Task = Task(context: Context, finished: bool)

  /** `TaskControlBlock::new(entry, stack_top)`: user mode at `entry` on its stack, not finished. */
  function NewTask(entry: usize, stackTop: usize): (t: Task)
    ensures t.context.Valid() && !t.finished
    ensures t.context.Pc() == entry && t.context.Sp() == stackTop
    ensures !t.context.supervisor && t.context.interrupt
    ensures forall n :: 1 <= n <= 31 && n != 2 ==> t.context.X(n) == 0
  {
    Task(UserContext(entry).WithSp(stackTop), false)
  }

  /** A trap that ends the task: an exit, an unsupported syscall, or any trap but the timer and a syscall. */
  predicate Ends(t: Task, cause: Cause, result: SyscallResult)
    requires t.context.Valid()
  {
    match cause
    case SupervisorTimer => false
    case UserEnvCall => result.Unsupported? || t.context.A(7) == EXIT
    case _ => true
  }

  /**
   * What a trap does to the task that took it, and whether `current` moves
   * on: a timer interrupt only moves on; a finished syscall other than exit
   * gets its return value in a0 and the pc past the `ecall`, and moves on
   * only for `sched_yield`; a trap that ends the task marks it finished and
   * moves on.
   */
  function TrapOutcome(t: Task, cause: Cause, result: SyscallResult): (r: (Task, bool))
    requires t.context.Valid()
    ensures r.0.context.Valid()
    ensures r.0.finished <==> t.finished || Ends(t, cause, result)
    ensures Ends(t, cause, result) ==> r.0.context == t.context && r.1
    ensures cause == SupervisorTimer ==> r == (t, true)
    ensures cause == UserEnvCall && result.Done? && t.context.A(7) != EXIT ==>
      && r.0.context == t.context.WithA(0, AsUsize(result.value)).MoveNext()
      && (r.1 <==> t.context.A(7) == SCHED_YIELD)
  {
    match cause
    case SupervisorTimer => (t, true)
    case UserEnvCall =>
      var id := t.context.A(7);
      (match result
       case Done(ret) =>
         if id == EXIT then (t.(finished := true), true)
         else
           var c := t.context.WithA(0, AsUsize(ret)).MoveNext();
           (t.(context := c), id == SCHED_YIELD)
       case Unsupported(_) => (t.(finished := true), true))
    case _ => (t.(finished := true), true)
  }

  /** `clock_gettime`: 0 and the time for MONOTONIC, -1 and nothing written for any other clock. */
  function ClockGettime(clockId: usize, ticks: usize): (r: (isize, Option<TimeSpec>))
    ensures clockId == CLOCK_MONOTONIC.v ==> r.0 == 0 && r.1.Some? && Nanos(r.1.value) == ticks * 100 && Normal(r.1.value)
    ensures clockId != CLOCK_MONOTONIC.v ==> r == (-1, None)
  {
    if clockId == CLOCK_MONOTONIC.v then (0, Some(TimeOfTicks(ticks))) else (-1, None)
  }

  /** Whether slot i holds a task that has not finished. */
  predicate Live(s: seq<Option<Task>>, i: nat)
    requires i < |s|
  {
    s[i].Some? && !s[i].value.finished
  }

  /** The number of unfinished tasks among the first n slots. */
  function Remaining(s: seq<Option<Task>>, n: nat): nat
    requires n <= |s|
  {
    if n == 0 then 0 else Remaining(s, n - 1) + (if Live(s, n - 1) then 1 else 0)
  }

  /** Replacing one task changes the count by what that slot contributes before and after. */
  lemma {:induction false} RemainingUpdate(s: seq<Option<Task>>, n: nat, i: nat, t: Task)
    requires i < n <= |s|
    ensures Remaining(s[i := Some(t)], n) + (if Live(s, i) then 1 else 0) == Remaining(s, n) + (if t.finished then 0 else 1)
  {
    if n - 1 != i {
      RemainingUpdate(s, n - 1, i, t);
    } else {
      RemainingSame(s, s[i := Some(t)], n - 1);
    }
  }

  /** Slots that agree below n count the same. */
  lemma {:induction false} RemainingSame(s: seq<Option<Task>>, u: seq<Option<Task>>, n: nat)
    requires n <= |s| && n <= |u| && forall j :: 0 <= j < n ==> s[j] == u[j]
    ensures Remaining(s, n) == Remaining(u, n)
  {
    if n > 0 {
      RemainingSame(s, u, n - 1);
    }
  }

  /** Nothing is left to run exactly when no slot below n holds a live task. */
  lemma {:induction false} RemainingZero(s: seq<Option<Task>>, n: nat)
    requires n <= |s|
    ensures Remaining(s, n) == 0 <==> forall j :: 0 <= j < n ==> !Live(s, j)
  {
    if n > 0 {
      RemainingZero(s, n - 1);
    }
  }

  /** How far `to` lies after `from` going round a ring of n slots. */
  function Gap(from: nat, to: nat, n: nat): nat
    requires from <= n
  {
    if to >= from then to - from else to + n - from
  }

  /** `(i + 1) % n`: the slot after i. */
  function Next(i: nat, n: nat): nat
    requires n > 0
  {
    (i + 1) % n
  }

  /** Within the ring, the slot after i is i + 1, or 0 after the last one. */
  lemma NextWraps(i: nat, n: nat)
    requires i < n
    ensures Next(i, n) == if i + 1 < n then i + 1 else 0
  {
    if i + 1 == n {
      assert (i + 1) % n == n % n == 0;
    }
  }

  /** The slot d steps round a ring of n slots from `from`. */
  function Ahead(from: nat, d: nat, n: nat): nat
    requires n > 0
    decreases d
  {
    if d == 0 then from else Next(Ahead(from, d - 1, n), n)
  }

  /** Up to one full turn, d steps from `from` is from + d, wrapped once at n. */
  lemma {:induction false} AheadIs(from: nat, d: nat, n: nat)
    requires from < n && d <= n
    ensures Ahead(from, d, n) == if from + d < n then from + d else from + d - n
  {
    if d > 0 {
      AheadIs(from, d - 1, n);
      NextWraps(Ahead(from, d - 1, n), n);
    }
  }

  /** k steps round the ring from `from` land k slots ahead. */
  lemma RingStep(from: nat, k: nat, n: nat)
    requires from < n && k < n
    ensures Gap(from, Ahead(from, k, n), n) == k
  {
    AheadIs(from, k, n);
  }

  /** Every slot of the ring is reached from `from` within n steps, and n steps come back. */
  lemma RingCovers(from: nat, i: nat, n: nat)
    requires from < n && i < n
    ensures Gap(from, i, n) < n && Ahead(from, Gap(from, i, n), n) == i
    ensures Ahead(from, n, n) == from
  {
    AheadIs(from, Gap(from, i, n), n);
    AheadIs(from, n, n);
  }

  /**
   * The ch3 scheduler state: the static task table, the number of apps
   * found at boot and the index of the task to run next.
   */
  class Scheduler {
    const tasks: array<Option<Task>>
    const numApps: nat
    var current: nat

    ghost predicate Valid()
      reads this, tasks
    {
      && tasks.Length == MAX_APP_NUM && numApps <= MAX_APP_NUM
      && (numApps > 0 ==> current < numApps)
      && forall i :: 0 <= i < numApps ==> tasks[i].Some? && tasks[i].value.context.Valid()
    }

    /** Whether task i has finished. */
    predicate Finished(i: nat)
      requires i < tasks.Length && tasks[i].Some?
      reads tasks
    {
      tasks[i].value.finished
    }

    /**
     * The boot loop: app i (of the first 16) gets a new task at its entry
     * on its stack; `current` starts at 0.
     */
    constructor Load(apps: seq<(usize, usize)>)
      ensures Valid() && fresh(tasks) && current == 0
      ensures numApps == Min(|apps|, MAX_APP_NUM)
      ensures forall i :: 0 <= i < numApps ==> tasks[i] == Some(NewTask(apps[i].0, apps[i].1))
      ensures Remaining(tasks[..], numApps) == numApps
    {
      var n := Min(|apps|, MAX_APP_NUM);
      var table := new Option<Task>[MAX_APP_NUM](_ => None);
      var i := 0;
      while i < n
        invariant 0 <= i <= n
        invariant forall j :: 0 <= j < i ==> table[j] == Some(NewTask(apps[j].0, apps[j].1))
        invariant Remaining(table[..], i) == i
      {
        ghost var prev := table[..];
        table[i] := Some(NewTask(apps[i].0, apps[i].1));
        RemainingSame(prev, table[..], i);
        i := i + 1;
      }
      tasks := table;
      numApps := n;
      current := 0;
    }

    /**
     * The search at the top of the loop: starting at `current`, the first
     * unfinished task round the ring. When every task has finished nothing
     * is found and `current` is back where it started (the kernel then
     * shuts down).
     */
    method FindNext() returns (found: bool)
      requires Valid() && numApps > 0
      modifies this
      ensures Valid()
      ensures found <==> exists i :: 0 <= i < numApps && !Finished(i)
      ensures found ==> !Finished(current)
      ensures found ==> forall d :: 0 <= d < Gap(old(current), current, numApps) ==>
        Finished(Ahead(old(current), d, numApps))
      ensures !found ==> current == old(current)
    {
      found, current := Search(current);
      assert forall i :: 0 <= i < numApps ==> Finished(i) == old(Finished(i));
    }

    /** The loop of `FindNext`, from slot `start`: whether a task was found, and where the search stopped. */
    method Search(start: nat) returns (found: bool, c: nat)
      requires Valid() && start < numApps
      ensures c < numApps
      ensures found <==> exists i :: 0 <= i < numApps && !Finished(i)
      ensures found ==> !Finished(c)
      ensures found ==> forall d :: 0 <= d < Gap(start, c, numApps) ==> Finished(Ahead(start, d, numApps))
      ensures !found ==> c == start
    {
      var n := numApps;
      c := start;
      found := false;
      var k := 0;
      while k < n
        invariant 0 <= k <= n && c < n
        invariant c == Ahead(start, k, n)
        invariant forall d :: 0 <= d < k ==> Finished(Ahead(start, d, n))
      {
        if !tasks[c].value.finished {
          found := true;
          break;
        }
        c := (c + 1) % n;
        k := k + 1;
      }
      if found {
        RingStep(start, k, n);
        assert !Finished(c);
      } else {
        forall i | 0 <= i < n
          ensures Finished(i)
        {
          RingCovers(start, i, n);
        }
        RingCovers(start, start, n);
      }
    }

    /**
     * The trap rules applied to the task at `current`: its slot takes the
     * outcome, every other slot is kept, `current` moves on by one modulo
     * the number of apps where the rule says so, and the number of
     * unfinished tasks drops by one exactly when a running task ends.
     */
    method HandleTrap(cause: Cause, result: SyscallResult)
      requires Valid() && numApps > 0
      modifies this, tasks
      ensures Valid()
      ensures var o := TrapOutcome(old(tasks[current]).value, cause, result);
        && tasks[old(current)] == Some(o.0)
        && current == (if o.1 then (old(current) + 1) % numApps else old(current))
      ensures forall i :: 0 <= i < MAX_APP_NUM && i != old(current) ==> tasks[i] == old(tasks[i])
      ensures Remaining(tasks[..], numApps) ==
        old(Remaining(tasks[..], numApps)) - (if !old(Finished(current)) && Ends(old(tasks[current]).value, cause, result) then 1 else 0)
    {
      ghost var before := tasks[..];
      var o := TrapOutcome(tasks[current].value, cause, result);
      tasks[current] := Some(o.0);
      assert tasks[..] == before[current := Some(o.0)];
      RemainingUpdate(before, numApps, current, o.0);
      if o.1 {
        current := (current + 1) % numApps;
      }
    }
  }
}
