/**
 * The task-manage crate: task identifiers, the parent/child relation records,
 * and the two schedulers-with-bookkeeping `PManager` (processes) and
 * `PThreadManager` (processes owning threads).
 *
 * The generic `Manage`/`Schedule` store is modelled as the concrete pair the
 * chapter kernels plug in: a map from id to task and a FIFO ready queue.
 */
module TaskManage {
  import opened Words
  import opened Wrappers

  /** `ProcId`: equality and order are those of the wrapped value. */
  datatype ProcId = ProcId(v: usize)
  /** `ThreadId`, likewise. */
  datatype ThreadId = ThreadId(v: usize)

  /** The id `wait` takes to mean "any child". */
  const WAIT_ANY: usize := USIZE_MAX
  /** The pid of the process that inherits orphans. */
  const INIT_PID: ProcId := ProcId(0)
  /** The result of a wait that found only live children: `(usize::MAX - 1, -1)`. */
  const SENTINEL: (ProcId, isize) := (ProcId(USIZE_MAX - 1), -1)
  /** The exit code `wait_thread` reports for a thread that is still running. */
  const THREAD_RUNNING: isize := -2

  /** The process-wide counter behind `new()` (an atomic fetch-and-add). */
  class IdCounter {
    var next: usize

    constructor ()
      ensures next == 0
    {
      next := 0;
    }

    /** `new()`: hands out the counter and bumps it, wrapping at 2^64. */
    method New() returns (id: usize)
      modifies this
      ensures id == old(next) && next == WrappingAdd(old(next), 1)
      ensures old(next) < USIZE_MAX ==> next == id + 1 && id < next
    {
      id := next;
      next := WrappingAdd(next, 1);
    }
  }

  /** Index of the first occurrence of `x` in `s`. */
  function FirstIndex<T(==)>(s: seq<T>, x: T): (i: nat)
    requires x in s
    ensures i < |s| && s[i] == x && x !in s[..i]
  {
    if s[0] == x then 0 else 1 + FirstIndex(s[1..], x)
  }

  /** `s` without the first occurrence of `x`: what `Vec::remove(position)` leaves. */
  function RemoveFirst<T(==)>(s: seq<T>, x: T): (r: seq<T>)
    requires x in s
    ensures |r| == |s| - 1 && multiset(r) == multiset(s) - multiset{x}
  {
    var i := FirstIndex(s, x);
    assert s == s[..i] + [x] + s[i + 1..];
    s[..i] + s[i + 1..]
  }

  /** Whether some record in `dead` carries id `c`. */
  predicate HasRecord<K(==), V>(dead: seq<(K, V)>, c: K) {
    exists j :: 0 <= j < |dead| && dead[j].0 == c
  }

  /** Index of the first record in `dead` carrying id `c`. */
  function FirstRecord<K(==), V>(dead: seq<(K, V)>, c: K): (i: nat)
    requires HasRecord(dead, c)
    ensures i < |dead| && dead[i].0 == c
    ensures forall j :: 0 <= j < i ==> dead[j].0 != c
  {
    if dead[0].0 == c then 0
    else
      assert HasRecord(dead[1..], c) by {
        var j :| 0 <= j < |dead| && dead[j].0 == c;
        assert dead[1..][j - 1].0 == c;
      }
      1 + FirstRecord(dead[1..], c)
  }

  /** `ProcRel`: a process's parent, its live children and its reaped-but-unwaited children. */
  datatype ProcRel = ProcRel(parent: ProcId, children: seq<ProcId>, deadChildren: seq<(ProcId, isize)>)
  {
    function AddChild(c: ProcId): (r: ProcRel)
      ensures r.parent == parent && r.children == children + [c] && r.deadChildren == deadChildren
    {
      this.(children := children + [c])
    }

    /** `del_child`: a live child moves to the dead list with its exit code; anything else is ignored. */
    function DelChild(c: ProcId, code: isize): (r: ProcRel)
      ensures r.parent == parent
      ensures c in children ==> r.children == RemoveFirst(children, c) && r.deadChildren == deadChildren + [(c, code)]
      ensures c !in children ==> r == this
    {
      if c in children then
        this.(children := RemoveFirst(children, c), deadChildren := deadChildren + [(c, code)])
      else this
    }

    /**
     * `wait_any_child`: nothing to wait for gives None; otherwise the oldest
     * dead child is reaped; otherwise only live children remain and the
     * sentinel is returned.
     */
    function WaitAnyChild(): (res: (ProcRel, Option<(ProcId, isize)>))
      ensures children == [] && deadChildren == [] ==> res == (this, None)
      ensures deadChildren != [] ==> res == (this.(deadChildren := deadChildren[1..]), Some(deadChildren[0]))
      ensures children != [] && deadChildren == [] ==> res == (this, Some(SENTINEL))
    {
      if children == [] && deadChildren == [] then (this, None)
      else if deadChildren != [] then (this.(deadChildren := deadChildren[1..]), Some(deadChildren[0]))
      else (this, Some(SENTINEL))
    }

    /**
     * `wait_child(c)`: reaps c's first dead record if there is one; a live c
     * gives the sentinel; an unknown c gives None.
     */
    function WaitChild(c: ProcId): (res: (ProcRel, Option<(ProcId, isize)>))
      ensures HasRecord(deadChildren, c) ==>
        var i := FirstRecord(deadChildren, c);
        res == (this.(deadChildren := deadChildren[..i] + deadChildren[i + 1..]), Some(deadChildren[i]))
      ensures !HasRecord(deadChildren, c) && c in children ==> res == (this, Some(SENTINEL))
      ensures !HasRecord(deadChildren, c) && c !in children ==> res == (this, None)
      ensures res.1.Some? && res.1 != Some(SENTINEL) ==> res.1.value.0 == c
    {
      if HasRecord(deadChildren, c) then
        var i := FirstRecord(deadChildren, c);
        (this.(deadChildren := deadChildren[..i] + deadChildren[i + 1..]), Some(deadChildren[i]))
      else if c in children then (this, Some(SENTINEL))
      else (this, None)
    }
  }

  function NewRel(parent: ProcId): (r: ProcRel)
    ensures r.parent == parent && r.children == [] && r.deadChildren == []
  {
    ProcRel(parent, [], [])
  }

  /** The relation of `id` as `entry(id).or_insert_with(...)` would find or create it. */
  function RelOr(rels: map<ProcId, ProcRel>, id: ProcId, parent: ProcId): ProcRel {
    if id in rels then rels[id] else NewRel(parent)
  }

  /** The relation table after `add(id, _, parent)`. */
  function AddRelations(rels: map<ProcId, ProcRel>, id: ProcId, parent: ProcId): (r: map<ProcId, ProcRel>)
    ensures r.Keys == rels.Keys + {parent, id}
    ensures r[parent].children == RelOr(rels, parent, parent).children + [id]
    ensures id != parent ==> r[id] == RelOr(rels, id, parent)
    ensures forall p :: p in rels && p != parent && p != id ==> r[p] == rels[p]
  {
    var withParent := rels[parent := RelOr(rels, parent, parent).AddChild(id)];
    if id in withParent then withParent else withParent[id := NewRel(parent)]
  }

  /** One step of reparenting: `c` gets parent 0 and, if pid 0 has a relation, becomes its child. */
  function ReparentOne(rels: map<ProcId, ProcRel>, c: ProcId): (r: map<ProcId, ProcRel>)
    ensures r.Keys == rels.Keys
  {
    var moved := if c in rels then rels[c := rels[c].(parent := INIT_PID)] else rels;
    if INIT_PID in moved then moved[INIT_PID := moved[INIT_PID].AddChild(c)] else moved
  }

  /** The reparenting loop of `make_current_exited` over the list `cs`, in order. */
  function Reparent(rels: map<ProcId, ProcRel>, cs: seq<ProcId>): (r: map<ProcId, ProcRel>)
    ensures r.Keys == rels.Keys
    decreases |cs|
  {
    if cs == [] then rels else ReparentOne(Reparent(rels, cs[..|cs| - 1]), cs[|cs| - 1])
  }

  /** Every listed child that has a relation ends with parent 0. */
  lemma {:induction false} ReparentSetsParent(rels: map<ProcId, ProcRel>, cs: seq<ProcId>, c: ProcId)
    requires c in cs && c in rels
    ensures Reparent(rels, cs)[c].parent == INIT_PID
    decreases |cs|
  {
    var front := cs[..|cs| - 1];
    assert cs == front + [cs[|cs| - 1]];
    if c in front {
      ReparentSetsParent(rels, front, c);
    }
  }

  /** When pid 0 has a relation, the whole list is appended to its children, in order. */
  lemma {:induction false} ReparentAppendsToInit(rels: map<ProcId, ProcRel>, cs: seq<ProcId>)
    requires INIT_PID in rels
    ensures Reparent(rels, cs)[INIT_PID].children == rels[INIT_PID].children + cs
    decreases |cs|
  {
    if cs != [] {
      var front := cs[..|cs| - 1];
      ReparentAppendsToInit(rels, front);
      assert cs == front + [cs[|cs| - 1]];
    }
  }

  /**
   * Reparenting changes no relation other than pid 0's and the listed
   * children's, only ever changes the children list of pid 0, and never
   * touches a dead-children list.
   */
  lemma {:induction false} ReparentFrames(rels: map<ProcId, ProcRel>, cs: seq<ProcId>, p: ProcId)
    requires p in rels
    ensures p !in cs && p != INIT_PID ==> Reparent(rels, cs)[p] == rels[p]
    ensures p != INIT_PID ==> Reparent(rels, cs)[p].children == rels[p].children
    ensures Reparent(rels, cs)[p].deadChildren == rels[p].deadChildren
    decreases |cs|
  {
    if cs != [] {
      var front := cs[..|cs| - 1];
      ReparentFrames(rels, front, p);
      assert cs == front + [cs[|cs| - 1]];
    }
  }

  /** The relation table after the exiting process `pid` (with exit code `code`) is cleaned up. */
  function ExitRelations(rels: map<ProcId, ProcRel>, pid: ProcId, code: isize): map<ProcId, ProcRel> {
    var notified :=
      if pid in rels && rels[pid].parent in rels
      then rels[rels[pid].parent := rels[rels[pid].parent].DelChild(pid, code)]
      else rels;
    if pid in notified then
      var reparented := Reparent(notified, notified[pid].children);
      reparented[pid := reparented[pid].(children := [])]
    else notified
  }

  /**
   * What exiting does to the relations: the parent records the exit code
   * (if it still listed the process as live), every child is handed to pid
   * 0, and the exiting process keeps no live children.
   */
  lemma ExitRelationsSpec(rels: map<ProcId, ProcRel>, pid: ProcId, code: isize)
    requires pid in rels
    ensures ExitRelations(rels, pid, code).Keys == rels.Keys
    ensures ExitRelations(rels, pid, code)[pid].children == []
    ensures var parent := rels[pid].parent;
      parent in rels && parent != pid && pid in rels[parent].children ==>
        ExitRelations(rels, pid, code)[parent].deadChildren == rels[parent].deadChildren + [(pid, code)]
    ensures forall c :: c in rels[pid].children && c in rels && c != pid ==> ExitRelations(rels, pid, code)[c].parent == INIT_PID
  {
    ExitNotifiesParent(rels, pid, code);
    ExitReparentsChildren(rels, pid, code);
  }

  lemma ExitNotifiesParent(rels: map<ProcId, ProcRel>, pid: ProcId, code: isize)
    requires pid in rels
    ensures var parent := rels[pid].parent;
      parent in rels && parent != pid && pid in rels[parent].children ==>
        ExitRelations(rels, pid, code)[parent].deadChildren == rels[parent].deadChildren + [(pid, code)]
  {
    var parent := rels[pid].parent;
    if parent in rels {
      var notified := rels[parent := rels[parent].DelChild(pid, code)];
      ReparentFrames(notified, notified[pid].children, parent);
    }
  }

  lemma ExitReparentsChildren(rels: map<ProcId, ProcRel>, pid: ProcId, code: isize)
    requires pid in rels
    ensures forall c :: c in rels[pid].children && c in rels && c != pid ==> ExitRelations(rels, pid, code)[c].parent == INIT_PID
  {
    var parent := rels[pid].parent;
    var notified :=
      if parent in rels then rels[parent := rels[parent].DelChild(pid, code)] else rels;
    var cs := notified[pid].children;
    forall c | c in rels[pid].children && c in rels && c != pid
      ensures ExitRelations(rels, pid, code)[c].parent == INIT_PID
    {
      assert c in multiset(rels[pid].children);
      assert c in multiset(cs);
      ReparentSetsParent(notified, cs, c);
    }
  }

  /**
   * How many ids at the front of `queue` `find_next` discards: the ones
   * whose task is no longer stored, up to the first live one.
   */
  function Skipped<K, T>(queue: seq<K>, store: map<K, T>): (n: nat)
    ensures n <= |queue|
    ensures forall j :: 0 <= j < n ==> queue[j] !in store
    ensures n < |queue| ==> queue[n] in store
  {
    if queue == [] then 0
    else if queue[0] in store then 0
    else 1 + Skipped(queue[1..], store)
  }

  /**
   * `PManager` over a store and a FIFO ready queue: tasks, their
   * relations, and the task currently running.
   */
  class PManager<P> {
    var store: map<ProcId, P>
    var ready: seq<ProcId>
    var relations: map<ProcId, ProcRel>
    var current: Option<ProcId>

    constructor ()
      ensures store == map[] && ready == [] && relations == map[] && current == None
    {
      store, ready, relations, current := map[], [], map[], None;
    }

    /** `add(id, task, parent)`: store, enqueue, and record the parent/child link. */
    method Add(id: ProcId, task: P, parent: ProcId)
      modifies this
      ensures store == old(store)[id := task] && ready == old(ready) + [id]
      ensures relations == AddRelations(old(relations), id, parent)
      ensures current == old(current)
    {
      store := store[id := task];
      ready := ready + [id];
      relations := relations[parent := RelOr(relations, parent, parent).AddChild(id)];
      if id !in relations {
        relations := relations[id := NewRel(parent)];
      }
    }

    /**
     * `find_next`: fetch ids until one still has a task; that one becomes
     * current. An exhausted queue clears `current`.
     */
    method FindNext() returns (task: Option<P>)
      modifies this
      ensures var n := Skipped(old(ready), store);
        if n < |old(ready)| then
          ready == old(ready)[n + 1..] && current == Some(old(ready)[n]) && task == Some(store[old(ready)[n]])
        else
          ready == [] && current == None && task == None
      ensures store == old(store) && relations == old(relations)
    {
      ghost var n := 0;
      while true
        invariant n <= |old(ready)| && ready == old(ready)[n..]
        invariant forall j :: 0 <= j < n ==> old(ready)[j] !in store
        invariant store == old(store) && relations == old(relations)
        decreases |ready|
      {
        if ready == [] {
          current := None;
          task := None;
          assert Skipped(old(ready), store) == n by { SkippedFrom(old(ready), store, n); }
          return;
        }
        var id := ready[0];
        ready := ready[1..];
        if id in store {
          current := Some(id);
          task := Some(store[id]);
          assert Skipped(old(ready), store) == n by { SkippedFrom(old(ready), store, n); }
          return;
        }
        n := n + 1;
      }
    }

    /** `current()`: the running task, if it is still stored. */
    function Current(): (task: Option<P>)
      reads this
      ensures task.Some? <==> current.Some? && current.value in store
      ensures task.Some? ==> task.value == store[current.value]
    {
      if current.Some? && current.value in store then Some(store[current.value]) else None
    }

    /** `get_task(id)`. */
    function GetTask(id: ProcId): (task: Option<P>)
      reads this
      ensures task.Some? <==> id in store
      ensures task.Some? ==> task.value == store[id]
    {
      if id in store then Some(store[id]) else None
    }

    /** `make_current_suspend`: the running task goes to the back of the queue. */
    method MakeCurrentSuspend()
      modifies this
      ensures current == None
      ensures ready == if old(current).Some? then old(ready) + [old(current).value] else old(ready)
      ensures store == old(store) && relations == old(relations)
    {
      if current.Some? {
        ready := ready + [current.value];
      }
      current := None;
    }

    /**
     * `make_current_exited(code)`: the running task is deleted, its parent
     * notified and its children reparented; nothing runs afterwards.
     */
    method MakeCurrentExited(code: isize)
      modifies this
      ensures current == None && ready == old(ready)
      ensures old(current).None? ==> store == old(store) && relations == old(relations)
      ensures old(current).Some? ==>
        store == old(store) - {old(current).value} &&
        relations == ExitRelations(old(relations), old(current).value, code)
    {
      if current.None? {
        return;
      }
      var pid := current.value;
      current := None;
      store := store - {pid};
      if pid in relations {
        var parent := relations[pid].parent;
        if parent in relations {
          relations := relations[parent := relations[parent].DelChild(pid, code)];
        }
      }
      if pid in relations {
        ReparentChildren(relations[pid].children);
        relations := relations[pid := relations[pid].(children := [])];
      }
    }

    /** The reparenting loop of `make_current_exited`, over a copy of the exiting process's children. */
    method ReparentChildren(children: seq<ProcId>)
      modifies this
      ensures relations == Reparent(old(relations), children)
      ensures store == old(store) && ready == old(ready) && current == old(current)
    {
      var i := 0;
      while i < |children|
        invariant 0 <= i <= |children|
        invariant relations == Reparent(old(relations), children[..i])
        invariant store == old(store) && ready == old(ready) && current == old(current)
      {
        var c := children[i];
        if c in relations {
          relations := relations[c := relations[c].(parent := INIT_PID)];
        }
        if INIT_PID in relations {
          relations := relations[INIT_PID := relations[INIT_PID].AddChild(c)];
        }
        assert children[..i + 1][..i] == children[..i];
        i := i + 1;
      }
      assert children[..i] == children;
    }

    /**
     * `wait(child)`: asks the current process's relation for `child`, or for
     * any child when `child` is `usize::MAX`; None when nothing runs or the
     * current process has no relation.
     */
    method Wait(child: ProcId) returns (res: Option<(ProcId, isize)>)
      modifies this
      ensures store == old(store) && ready == old(ready) && current == old(current)
      ensures old(current).None? || old(current).value !in old(relations) ==> res == None && relations == old(relations)
      ensures old(current).Some? && old(current).value in old(relations) ==>
        var rel := old(relations)[old(current).value];
        var step := if child.v == WAIT_ANY then rel.WaitAnyChild() else rel.WaitChild(child);
        res == step.1 && relations == old(relations)[old(current).value := step.0]
    {
      if current.None? || current.value !in relations {
        return None;
      }
      var pid := current.value;
      var step := if child.v == WAIT_ANY then relations[pid].WaitAnyChild() else relations[pid].WaitChild(child);
      relations := relations[pid := step.0];
      res := step.1;
    }
  }

  /** The skip count read from position n, once the first n ids are known dead. */
  lemma {:induction false} SkippedFrom<K, T>(queue: seq<K>, store: map<K, T>, n: nat)
    requires n <= |queue|
    requires forall j :: 0 <= j < n ==> queue[j] !in store
    requires n == |queue| || queue[n] in store
    ensures Skipped(queue, store) == n
    decreases n
  {
    if n > 0 {
      SkippedFrom(queue[1..], store, n - 1);
    }
  }

  /** `ProcThreadRel`: a process relation plus the process's live and dead threads. */
  datatype ProcThreadRel = ProcThreadRel(proc: ProcRel, threads: seq<ThreadId>, deadThreads: seq<(ThreadId, isize)>)
  {
    function AddThread(t: ThreadId): (r: ProcThreadRel)
      ensures r.proc == proc && r.threads == threads + [t] && r.deadThreads == deadThreads
    {
      this.(threads := threads + [t])
    }

    /** `del_thread`: a live thread moves to the dead list with its exit code. */
    function DelThread(t: ThreadId, code: isize): (r: ProcThreadRel)
      ensures r.proc == proc
      ensures t in threads ==> r.threads == RemoveFirst(threads, t) && r.deadThreads == deadThreads + [(t, code)]
      ensures t !in threads ==> r == this
    {
      if t in threads then
        this.(threads := RemoveFirst(threads, t), deadThreads := deadThreads + [(t, code)])
      else this
    }

    /** `wait_thread(t)`: reaps t's exit code; -2 while t runs; None for an unknown t. */
    function WaitThread(t: ThreadId): (res: (ProcThreadRel, Option<isize>))
      ensures HasRecord(deadThreads, t) ==>
        var i := FirstRecord(deadThreads, t);
        res == (this.(deadThreads := deadThreads[..i] + deadThreads[i + 1..]), Some(deadThreads[i].1))
      ensures !HasRecord(deadThreads, t) && t in threads ==> res == (this, Some(THREAD_RUNNING))
      ensures !HasRecord(deadThreads, t) && t !in threads ==> res == (this, None)
    {
      if HasRecord(deadThreads, t) then
        var i := FirstRecord(deadThreads, t);
        (this.(deadThreads := deadThreads[..i] + deadThreads[i + 1..]), Some(deadThreads[i].1))
      else if t in threads then (this, Some(THREAD_RUNNING))
      else (this, None)
    }
  }

  function NewThreadRel(parent: ProcId): (r: ProcThreadRel)
    ensures r.proc == NewRel(parent) && r.threads == [] && r.deadThreads == []
  {
    ProcThreadRel(NewRel(parent), [], [])
  }

  function ThreadRelOr(rels: map<ProcId, ProcThreadRel>, id: ProcId, parent: ProcId): ProcThreadRel {
    if id in rels then rels[id] else NewThreadRel(parent)
  }

  /** The relation table after `del_proc(id, code)`. */
  function DelProcRelations(rels: map<ProcId, ProcThreadRel>, id: ProcId, code: isize): (r: map<ProcId, ProcThreadRel>)
    ensures r.Keys == rels.Keys - {id}
    ensures id in rels && rels[id].proc.parent in r ==>
      var parent := rels[id].proc.parent;
      r[parent] == rels[parent].(proc := rels[parent].proc.DelChild(id, code))
    ensures forall p :: p in r && (id !in rels || p != rels[id].proc.parent) ==> r[p] == rels[p]
  {
    var removed := rels - {id};
    if id in rels && rels[id].proc.parent in removed then
      var parent := rels[id].proc.parent;
      removed[parent := removed[parent].(proc := removed[parent].proc.DelChild(id, code))]
    else removed
  }

  /** `tid2pid` without the given threads. */
  function Unmap(tid2pid: map<ThreadId, ProcId>, tids: seq<ThreadId>): (r: map<ThreadId, ProcId>)
    ensures r.Keys == tid2pid.Keys - set t | t in tids
    ensures forall t :: t in r ==> r[t] == tid2pid[t]
  {
    map t | t in tid2pid && t !in tids :: tid2pid[t]
  }

  /**
   * `PThreadManager`: processes in their own store, threads in a store
   * with the FIFO ready queue, relations per process and the thread-to-
   * process map.
   */
  class PThreadManager<P, T> {
    var procs: map<ProcId, P>
    var threads: map<ThreadId, T>
    var ready: seq<ThreadId>
    var relations: map<ProcId, ProcThreadRel>
    var tid2pid: map<ThreadId, ProcId>
    var current: Option<ThreadId>

    constructor ()
      ensures procs == map[] && threads == map[] && ready == []
      ensures relations == map[] && tid2pid == map[] && current == None
    {
      procs, threads, ready := map[], map[], [];
      relations, tid2pid, current := map[], map[], None;
    }

    /** `add_proc(id, proc, parent)`: stores the process and links it under `parent`. */
    method AddProc(id: ProcId, proc: P, parent: ProcId)
      modifies this
      ensures procs == old(procs)[id := proc]
      ensures parent in relations && id in relations
      ensures relations[parent].proc.children == ThreadRelOr(old(relations), parent, parent).proc.children + [id]
      ensures id != parent ==> relations[id] == ThreadRelOr(old(relations), id, parent)
      ensures relations.Keys == old(relations).Keys + {parent, id}
      ensures forall p :: p in old(relations) && p != parent && p != id ==> relations[p] == old(relations)[p]
      ensures threads == old(threads) && ready == old(ready) && tid2pid == old(tid2pid) && current == old(current)
    {
      procs := procs[id := proc];
      var prel := ThreadRelOr(relations, parent, parent);
      relations := relations[parent := prel.(proc := prel.proc.AddChild(id))];
      if id !in relations {
        relations := relations[id := NewThreadRel(parent)];
      }
    }

    /** `add(tid, task, pid)`: stores and enqueues the thread and records it in its process. */
    method Add(id: ThreadId, task: T, pid: ProcId)
      modifies this
      ensures threads == old(threads)[id := task] && ready == old(ready) + [id]
      ensures tid2pid == old(tid2pid)[id := pid]
      ensures relations == old(relations)[pid := ThreadRelOr(old(relations), pid, INIT_PID).AddThread(id)]
      ensures procs == old(procs) && current == old(current)
    {
      threads := threads[id := task];
      ready := ready + [id];
      tid2pid := tid2pid[id := pid];
      relations := relations[pid := ThreadRelOr(relations, pid, INIT_PID).AddThread(id)];
    }

    /** `find_next`, as for processes, over the thread queue. */
    method FindNext() returns (task: Option<T>)
      modifies this
      ensures var n := Skipped(old(ready), threads);
        if n < |old(ready)| then
          ready == old(ready)[n + 1..] && current == Some(old(ready)[n]) && task == Some(threads[old(ready)[n]])
        else
          ready == [] && current == None && task == None
      ensures threads == old(threads) && procs == old(procs)
      ensures relations == old(relations) && tid2pid == old(tid2pid)
    {
      ghost var n := 0;
      while true
        invariant n <= |old(ready)| && ready == old(ready)[n..]
        invariant forall j :: 0 <= j < n ==> old(ready)[j] !in threads
        invariant threads == old(threads) && procs == old(procs)
        invariant relations == old(relations) && tid2pid == old(tid2pid)
        decreases |ready|
      {
        if ready == [] {
          current := None;
          task := None;
          assert Skipped(old(ready), threads) == n by { SkippedFrom(old(ready), threads, n); }
          return;
        }
        var id := ready[0];
        ready := ready[1..];
        if id in threads {
          current := Some(id);
          task := Some(threads[id]);
          assert Skipped(old(ready), threads) == n by { SkippedFrom(old(ready), threads, n); }
          return;
        }
        n := n + 1;
      }
    }

    method MakeCurrentSuspend()
      modifies this
      ensures current == None
      ensures ready == if old(current).Some? then old(ready) + [old(current).value] else old(ready)
      ensures threads == old(threads) && procs == old(procs)
      ensures relations == old(relations) && tid2pid == old(tid2pid)
    {
      if current.Some? {
        ready := ready + [current.value];
      }
      current := None;
    }

    /** `make_current_blocked`: the running thread is dropped from `current` without being enqueued. */
    method MakeCurrentBlocked()
      modifies this
      ensures current == None && ready == old(ready)
      ensures threads == old(threads) && procs == old(procs)
      ensures relations == old(relations) && tid2pid == old(tid2pid)
    {
      current := None;
    }

    /** `re_enque(id)`. */
    method ReEnque(id: ThreadId)
      modifies this
      ensures ready == old(ready) + [id] && current == old(current)
      ensures threads == old(threads) && procs == old(procs)
      ensures relations == old(relations) && tid2pid == old(tid2pid)
    {
      ready := ready + [id];
    }

    /** `del_proc(id, code)`: forget the process, its threads' pid entries and its relation; tell its parent. */
    method DelProc(id: ProcId, code: isize)
      modifies this
      ensures procs == old(procs) - {id}
      ensures relations == DelProcRelations(old(relations), id, code)
      ensures tid2pid == Unmap(old(tid2pid), if id in old(relations) then old(relations)[id].threads else [])
      ensures threads == old(threads) && ready == old(ready) && current == old(current)
    {
      var tids := if id in relations then relations[id].threads else [];
      var parent := if id in relations then Some(relations[id].proc.parent) else None;
      procs := procs - {id};
      var i := 0;
      while i < |tids|
        invariant 0 <= i <= |tids|
        invariant tid2pid == Unmap(old(tid2pid), tids[..i])
        invariant procs == old(procs) - {id} && relations == old(relations)
        invariant threads == old(threads) && ready == old(ready) && current == old(current)
      {
        tid2pid := tid2pid - {tids[i]};
        assert tids[..i + 1] == tids[..i] + [tids[i]];
        i := i + 1;
      }
      assert tids[..i] == tids;
      relations := relations - {id};
      if parent.Some? && parent.value in relations {
        relations := relations[parent.value := relations[parent.value].(proc := relations[parent.value].proc.DelChild(id, code))];
      }
    }

    /**
     * `make_current_exited(code)`: the running thread is deleted and
     * recorded as dead in its process; when that leaves the process with no
     * live thread, the process is deleted too.
     */
    method MakeCurrentExited(code: isize)
      requires current.Some? ==> current.value in tid2pid && tid2pid[current.value] in relations
      modifies this
      ensures current == None && ready == old(ready)
      ensures old(current).None? ==> threads == old(threads) && procs == old(procs) && relations == old(relations) && tid2pid == old(tid2pid)
      ensures old(current).Some? ==>
        var tid := old(current).value;
        var pid := old(tid2pid)[tid];
        var rel := old(relations)[pid].DelThread(tid, code);
        threads == old(threads) - {tid} &&
        (rel.threads != [] ==> relations == old(relations)[pid := rel] && procs == old(procs) && tid2pid == old(tid2pid)) &&
        (rel.threads == [] ==>
          relations == DelProcRelations(old(relations)[pid := rel], pid, code) &&
          procs == old(procs) - {pid} &&
          tid2pid == old(tid2pid))
    {
      if current.None? {
        return;
      }
      var tid := current.value;
      current := None;
      var pid := tid2pid[tid];
      threads := threads - {tid};
      var rel := relations[pid].DelThread(tid, code);
      relations := relations[pid := rel];
      if |rel.threads| == 0 {
        DelProc(pid, code);
      }
    }

    /** `wait(child)` through the current thread's process. */
    method Wait(child: ProcId) returns (res: Option<(ProcId, isize)>)
      modifies this
      ensures threads == old(threads) && procs == old(procs) && ready == old(ready)
      ensures tid2pid == old(tid2pid) && current == old(current)
      ensures (old(current).None? || old(current).value !in tid2pid || tid2pid[old(current).value] !in old(relations)) ==>
        res == None && relations == old(relations)
      ensures old(current).Some? && old(current).value in tid2pid && tid2pid[old(current).value] in old(relations) ==>
        var pid := tid2pid[old(current).value];
        var rel := old(relations)[pid].proc;
        var step := if child.v == WAIT_ANY then rel.WaitAnyChild() else rel.WaitChild(child);
        res == step.1 && relations == old(relations)[pid := old(relations)[pid].(proc := step.0)]
    {
      if current.None? || current.value !in tid2pid || tid2pid[current.value] !in relations {
        return None;
      }
      var pid := tid2pid[current.value];
      var rel := relations[pid].proc;
      var step := if child.v == WAIT_ANY then rel.WaitAnyChild() else rel.WaitChild(child);
      relations := relations[pid := relations[pid].(proc := step.0)];
      res := step.1;
    }

    /** `waittid(t)` through the current thread's process. */
    method Waittid(t: ThreadId) returns (res: Option<isize>)
      modifies this
      ensures threads == old(threads) && procs == old(procs) && ready == old(ready)
      ensures tid2pid == old(tid2pid) && current == old(current)
      ensures (old(current).None? || old(current).value !in tid2pid || tid2pid[old(current).value] !in old(relations)) ==>
        res == None && relations == old(relations)
      ensures old(current).Some? && old(current).value in tid2pid && tid2pid[old(current).value] in old(relations) ==>
        var pid := tid2pid[old(current).value];
        var step := old(relations)[pid].WaitThread(t);
        res == step.1 && relations == old(relations)[pid := step.0]
    {
      if current.None? || current.value !in tid2pid || tid2pid[current.value] !in relations {
        return None;
      }
      var pid := tid2pid[current.value];
      var step := relations[pid].WaitThread(t);
      relations := relations[pid := step.0];
      res := step.1;
    }

    /** `thread_count(id)`: live threads of the process, 0 without a relation. */
    function ThreadCount(id: ProcId): (n: nat)
      reads this
      ensures id in relations ==> n == |relations[id].threads|
      ensures id !in relations ==> n == 0
    {
      if id in relations then |relations[id].threads| else 0
    }

    /** `current()`: the running thread's task. */
    function Current(): (task: Option<T>)
      reads this
      ensures task.Some? <==> current.Some? && current.value in threads
      ensures task.Some? ==> task.value == threads[current.value]
    {
      if current.Some? && current.value in threads then Some(threads[current.value]) else None
    }

    /** `get_current_proc()`: the process of the running thread. */
    function CurrentProc(): (proc: Option<P>)
      reads this
      ensures proc.Some? <==> current.Some? && current.value in tid2pid && tid2pid[current.value] in procs
      ensures proc.Some? ==> proc.value == procs[tid2pid[current.value]]
    {
      if current.Some? && current.value in tid2pid && tid2pid[current.value] in procs
      then Some(procs[tid2pid[current.value]])
      else None
    }

    /** `get_task(id)`: the stored thread. */
    function GetTask(id: ThreadId): (task: Option<T>)
      reads this
      ensures task.Some? <==> id in threads
      ensures task.Some? ==> task.value == threads[id]
    {
      if id in threads then Some(threads[id]) else None
    }

    /** `get_proc(id)`: the stored process. */
    function GetProc(id: ProcId): (proc: Option<P>)
      reads this
      ensures proc.Some? <==> id in procs
      ensures proc.Some? ==> proc.value == procs[id]
    {
      if id in procs then Some(procs[id]) else None
    }

    /** `get_thread(id)`: the live threads of the process, None without a relation. */
    function GetThread(id: ProcId): (tids: Option<seq<ThreadId>>)
      reads this
      ensures tids.Some? <==> id in relations
      ensures tids.Some? ==> tids.value == relations[id].threads && |tids.value| == ThreadCount(id)
    {
      if id in relations then Some(relations[id].threads) else None
    }
  }

  /**
   * Waiting twice for the same dead child: the first call reaps its record,
   * so with one record the second call no longer sees it dead.
   */
  lemma {:induction false} WaitChildReaps(rel: ProcRel, c: ProcId)
    requires HasRecord(rel.deadChildren, c)
    requires forall j, k :: 0 <= j < k < |rel.deadChildren| ==> rel.deadChildren[j].0 != rel.deadChildren[k].0
    ensures rel.WaitChild(c).1 == Some(rel.deadChildren[FirstRecord(rel.deadChildren, c)])
    ensures !HasRecord(rel.WaitChild(c).0.deadChildren, c)
  {
    var i := FirstRecord(rel.deadChildren, c);
    var rest := rel.deadChildren[..i] + rel.deadChildren[i + 1..];
    forall j | 0 <= j < |rest|
      ensures rest[j].0 != c
    {
      if j < i {
        assert rest[j] == rel.deadChildren[j];
      } else {
        assert rest[j] == rel.deadChildren[j + 1];
      }
    }
  }

  /** `del_child` followed by `wait_child` of the same child gives back the recorded exit code. */
  lemma ExitThenWait(rel: ProcRel, c: ProcId, code: isize)
    requires c in rel.children && !HasRecord(rel.deadChildren, c)
    ensures rel.DelChild(c, code).WaitChild(c).1 == Some((c, code))
  {
    var d := rel.DelChild(c, code);
    assert d.deadChildren[|rel.deadChildren|] == (c, code);
    assert HasRecord(d.deadChildren, c);
    forall j | 0 <= j < |rel.deadChildren|
      ensures d.deadChildren[j].0 != c
    {
      assert d.deadChildren[j] == rel.deadChildren[j];
    }
  }
}
