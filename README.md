# A verified model of the rCore-style RISC-V teaching kernel

This project models, in Dafny, the core of a small RISC-V teaching operating
system written in Rust, and proves properties of that model. The system is a
set of crates plus chapter kernels that build on them, and the model covers
both:

- **kernel-context**: the saved register file of a thread (`LocalContext`)
  with its register accessors, `move_next`, and the status word built for the
  context switch. Also the portal used to run a context in a foreign address
  space (`PortalCache`, `ForeignContext`, `MultislotPortal` offsets).
- **task-manage**: the process and thread managers. Each has an id-keyed
  store plus a FIFO ready queue. The process manager also keeps the
  parent/child relation. They provide `add`, `fetch`, `make_current_*`,
  `del` and `wait`/`waittid`.
- **easy-fs**:
  - the on-disk layout: super block, bitmaps, disk inodes with direct,
    single- and double-indirect blocks, and directory entries;
  - the file system: `create`, `open`, inode and data-block allocation;
  - the block cache: reference counts, 16 entries, FIFO eviction of an entry
    nobody holds, write-back;
  - the VFS: `find`, `create`, `readdir`, `read_at`, `write_at`, `clear`;
  - the kernel's `FileHandle` read and write over user buffers.
- **kernel-vm**: the page-table view as a map from virtual page numbers to
  pages carrying permissions and contents.
- **linker**: the application table and the kernel section layout.
- **console**: the log-level filter and the colour prefix of printed lines.
- **signal-defs / signal-impl**: signal numbers and actions, and the
  per-process mask, pending set and handler state.
- **sync**: the mutex, semaphore and condition variable wait queues.
- **syscall**: syscall numbers, the dispatch from a syscall id to a handler
  group, and the result codes.
- **ch3–ch8 kernels**: each chapter's scheduler, loader and trap loop, and the
  syscalls whose bodies live in the chapter kernel. These include
  `fork`/`exec`/`waitpid`, `open`/`close`, `kill`/`sigaction`, thread
  stacks and `waittid`.

Machine words are unbounded integers restricted to their range (`usize` is
`0 <= n < 2^64`). Wrap-around is written out wherever the source uses
wrapping arithmetic. Objects the source updates in place are classes. This
covers a `LocalContext`, the managers, the block cache, the descriptor table
and the process records. Pure computations are functions, each with a
partner: an inverse, an invariant, or an independent reference definition.
Where the source has a bug (see "## Findings") the code is modelled as
written and also corrected, and lemmas relate the two halves. The rest of
the model uses the as-written half for the console's colour text and the
ELF loaders' copying pass; for those two the partner describes the
corrected behaviour, and the as-written half is tied to it by the lemmas
named in the table.

Hardware access, the hand-written assembly of the context switch, the block
device and the user address space appear only as parameters or as values
passed in.

## Model

| member | source | states |
|---|---|---|
| KernelContext.Context.WithX | kernel-context/src/lib.rs:65-70 | writing register xn (1..31) changes xn to the value and leaves every other register, the pc and both flags alone |
| KernelContext.Context.WithA | kernel-context/src/lib.rs:78-82 | writing argument register an is writing x(10+n); every other register, the pc and the flags are kept |
| KernelContext.Context.WithSp | kernel-context/src/lib.rs:94-97 | writing sp sets x2 and nothing else |
| KernelContext.Context.WithPc | kernel-context/src/lib.rs:104-106 | writing the pc changes only the saved pc |
| KernelContext.Context.MoveNext | kernel-context/src/lib.rs:109-111 | the pc advances by 4 modulo 2^64; registers and flags are kept |
| KernelContext.EmptyContext | kernel-context/src/lib.rs:27-35 | the empty context has 31 zero registers, pc 0, user mode and interrupts off |
| KernelContext.UserContext | kernel-context/src/lib.rs:38-46 | a user context starts at pc in user mode with interrupts on and every register zero |
| KernelContext.ThreadContext | kernel-context/src/lib.rs:49-56 | a kernel-thread context starts at pc in supervisor mode with the given interrupt flag and every register zero |
| KernelContext.StatusWord | kernel-context/src/lib.rs:115-131 | the status word given to the switch has SPP equal to the supervisor flag and SPIE equal to the interrupt flag |
| KernelContext.StatusWordKeepsOtherBits | kernel-context/src/lib.rs:115-131 | every other bit of the incoming sstatus passes through unchanged |
| KernelContext.CacheStatus | kernel-context/src/lib.rs:376-384 | the cached status word has SPP and SPIE set exactly from the two flags |
| KernelContext.CacheStatusIsStatusWord | kernel-context/src/lib.rs:376-384 | the cached word is the word the switch builds from an all-clear sstatus, so all its other bits are clear |
| KernelContext.LocalContext.Clone | kernel-context/src/lib.rs:13-23 | a clone is a fresh object with the same register file, pc and flags |
| KernelContext.LocalContext.Empty | kernel-context/src/lib.rs:27-35 | a fresh register array holding the empty context |
| KernelContext.LocalContext.User | kernel-context/src/lib.rs:38-46 | a fresh register array holding the user context that starts at pc |
| KernelContext.LocalContext.Thread | kernel-context/src/lib.rs:49-56 | a fresh register array holding the kernel-thread context at pc with the given interrupt flag |
| KernelContext.LocalContext.Assign | signal-impl/src/lib.rs:236 | overwriting the context with a saved one leaves exactly the saved registers, pc and flags |
| KernelContext.LocalContext.SetX | kernel-context/src/lib.rs:65-70 | the object's new value is the old value with xn replaced |
| KernelContext.LocalContext.SetA | kernel-context/src/lib.rs:78-82 | the object's new value is the old value with an replaced |
| KernelContext.LocalContext.SetSp | kernel-context/src/lib.rs:94-97 | the object's new value is the old value with sp replaced |
| KernelContext.LocalContext.SetPc | kernel-context/src/lib.rs:104-106 | the object's new value is the old value with the pc replaced |
| KernelContext.LocalContext.MoveNext | kernel-context/src/lib.rs:109-111 | the object's new value is the old value stepped past one instruction |
| KernelContext.LocalContext.ExecuteStatus | kernel-context/src/lib.rs:115-131 | the method builds the status word from the incoming sstatus and the object's flags |
| KernelContext.PortalCache.Init | kernel-context/src/lib.rs:376-384 | the cache holds satp, the pc, a0 and the status word of the two flags |
| KernelContext.ForeignContext.Execute | kernel-context/src/lib.rs:398-409 | the portal cache receives the context's satp, pc, a0 and original flags; the context's value, including its flags and a0, ends as it started; the result is the cached status word |
| KernelContext.ForeignContext.constructor | kernel-context/src/lib.rs:391-394 | a foreign context pairs the given local context with the given satp |
| KernelContext.Index | kernel-context/src/lib.rs:422-428 | the unit key selects slot 0 and an index key selects its own slot |
| KernelContext.PortalLayout | kernel-context/src/lib.rs:472-497 | the code area ends where slot 0 begins, slot i ends where slot i+1 begins, and every slot lies inside `calculate_size(slots)` |
| KernelContext.CachesDisjoint | kernel-context/src/lib.rs:455-464 | caches of distinct slot indices do not overlap each other or the portal code |
| TaskManage.IdCounter.New | task-manage/src/lib.rs:30-33 | each id handed out is the counter's old value, and below 2^64-1 the counter strictly increases, so ids are never repeated |
| TaskManage.IdCounter.constructor | task-manage/src/lib.rs:25 | the id counter starts at 0 |
| TaskManage.RemoveFirst | task-manage/src/lib.rs:153-158 | removing the first occurrence of an id shortens the list by one and removes exactly one copy from its multiset |
| TaskManage.ProcRel.AddChild | task-manage/src/lib.rs:149-151 | the child is appended to the live children; the parent and the dead list are kept |
| TaskManage.ProcRel.DelChild | task-manage/src/lib.rs:153-158 | a live child leaves the live list and is appended to the dead list with its exit code; an unknown child changes nothing |
| TaskManage.ProcRel.WaitAnyChild | task-manage/src/lib.rs:160-169 | with no children at all the result is None; otherwise the oldest dead child is removed and returned; with only live children the sentinel (usize::MAX-1, -1) is returned |
| TaskManage.ProcRel.WaitChild | task-manage/src/lib.rs:171-180 | the child's first dead record is removed and returned; a live child gives the sentinel; an unknown child gives None; a reaped record always carries the asked id |
| TaskManage.NewRel | task-manage/src/lib.rs:141-147 | a new relation has the given parent and no children |
| TaskManage.AddRelations | task-manage/src/lib.rs:211-222 | after `add`, the parent's relation, created if missing, lists the new id as its last child; the new id has a relation; every other relation is unchanged |
| TaskManage.ReparentSetsParent | task-manage/src/lib.rs:271-281 | every listed child that has a relation ends with parent 0 |
| TaskManage.ReparentAppendsToInit | task-manage/src/lib.rs:271-281 | when pid 0 has a relation, the listed children are appended to its children in order |
| TaskManage.ReparentFrames | task-manage/src/lib.rs:271-281 | reparenting touches only pid 0 and the listed children, only pid 0's children list grows, and no dead list changes |
| TaskManage.ExitRelationsSpec | task-manage/src/lib.rs:257-289 | after an exit, the exiting process has no live children, its parent (if it listed it as live) records the exit code, and every child with a relation has parent 0 |
| TaskManage.ExitNotifiesParent | task-manage/src/lib.rs:263-269 | the parent's dead list gains (pid, code) exactly when the parent listed the process as live |
| TaskManage.ExitReparentsChildren | task-manage/src/lib.rs:271-281 | every child of the exiting process ends under pid 0 |
| TaskManage.Skipped | task-manage/src/lib.rs:224-240 | the ids `find_next` discards are the leading ids whose task is gone, and the id after them has a task |
| TaskManage.SkippedFrom | task-manage/src/lib.rs:224-240 | once the first n ids are known dead and id n is alive (or the queue ends), exactly n ids are skipped |
| TaskManage.PManager.constructor | task-manage/src/lib.rs:194-201 | a new manager has no tasks, an empty queue, no relations and nothing running |
| TaskManage.PManager.Add | task-manage/src/lib.rs:211-222 | the task is stored under its id and queued last, and the relations are updated as `AddRelations` states; the running task is kept |
| TaskManage.PManager.FindNext | task-manage/src/lib.rs:224-240 | dead ids at the head of the queue are dropped; the first live one becomes current and is returned; an exhausted queue gives None and clears current; the store and relations are kept |
| TaskManage.PManager.Current | task-manage/src/lib.rs:242-245 | the running task is returned exactly when there is one and it is still stored |
| TaskManage.PManager.GetTask | task-manage/src/lib.rs:247-249 | a task is returned exactly for a stored id, and it is the stored one |
| TaskManage.PManager.MakeCurrentSuspend | task-manage/src/lib.rs:251-255 | the running task goes to the back of the queue and nothing runs |
| TaskManage.PManager.MakeCurrentExited | task-manage/src/lib.rs:257-289 | the running task is deleted from the store, the relations become `ExitRelations` of the exit, and nothing runs; with nothing running nothing changes |
| TaskManage.PManager.ReparentChildren | task-manage/src/lib.rs:271-281 | the loop over the copied children list yields exactly `Reparent` of it |
| TaskManage.PManager.Wait | task-manage/src/lib.rs:292-300 | with a running process that has a relation, `usize::MAX` waits for any child and another id for that child, and the relation is updated as the wait says; otherwise the result is None and nothing changes |
| TaskManage.ProcThreadRel.AddThread | task-manage/src/lib.rs:377-379 | the thread is appended to the process's live threads |
| TaskManage.ProcThreadRel.DelThread | task-manage/src/lib.rs:381-386 | a live thread moves to the dead threads with its exit code; an unknown thread changes nothing |
| TaskManage.ProcThreadRel.WaitThread | task-manage/src/lib.rs:388-397 | a dead thread's first record is removed and its code returned; a live thread gives -2; an unknown thread gives None |
| TaskManage.NewThreadRel | task-manage/src/lib.rs:336-344 | a new process relation has the given parent, no children and no threads |
| TaskManage.DelProcRelations | task-manage/src/lib.rs:533-554 | `del_proc` removes the process's relation, has its parent record the exit code, and keeps every other relation |
| TaskManage.Unmap | task-manage/src/lib.rs:545-547 | the thread-to-process map loses exactly the listed threads and keeps every other entry |
| TaskManage.PThreadManager.constructor | task-manage/src/lib.rs:414-423 | a new manager is empty with nothing running |
| TaskManage.PThreadManager.AddProc | task-manage/src/lib.rs:445-455 | the process is stored; the parent's relation, created if missing, lists it as its last child; the new process has a relation; other relations, threads, the queue and current are kept |
| TaskManage.PThreadManager.Add | task-manage/src/lib.rs:457-466 | the thread is stored and queued last, mapped to its process, and appended to that process's live threads |
| TaskManage.PThreadManager.FindNext | task-manage/src/lib.rs:468-484 | as for processes, over the thread queue: dead ids are skipped and the first live thread becomes current |
| TaskManage.PThreadManager.MakeCurrentSuspend | task-manage/src/lib.rs:486-490 | the running thread goes to the back of the queue |
| TaskManage.PThreadManager.MakeCurrentBlocked | task-manage/src/lib.rs:492-494 | the running thread stops running without being queued |
| TaskManage.PThreadManager.ReEnque | task-manage/src/lib.rs:516-518 | the thread is queued last and nothing else changes |
| TaskManage.PThreadManager.DelProc | task-manage/src/lib.rs:533-554 | the process is removed from the store, its threads from the thread-to-process map, and its relation as `DelProcRelations` states |
| TaskManage.PThreadManager.MakeCurrentExited | task-manage/src/lib.rs:496-514 | the running thread is deleted and recorded dead in its process; if no live thread remains the process is deleted as `del_proc` does; nothing runs afterwards |
| TaskManage.PThreadManager.Wait | task-manage/src/lib.rs:556-565 | waits in the relation of the running thread's process, as the process manager does |
| TaskManage.PThreadManager.Waittid | task-manage/src/lib.rs:567-571 | waits for a thread in the relation of the running thread's process; None without one |
| TaskManage.PThreadManager.ThreadCount | task-manage/src/lib.rs:573-578 | the count is the number of live threads, and 0 without a relation |
| TaskManage.PThreadManager.Current | task-manage/src/lib.rs:520-523 | the running thread's task, exactly when it is stored |
| TaskManage.PThreadManager.GetTask | task-manage/src/lib.rs:525-527 | a thread is returned exactly for a stored id |
| TaskManage.PThreadManager.GetProc | task-manage/src/lib.rs:529-531 | a process is returned exactly for a stored id |
| TaskManage.PThreadManager.GetThread | task-manage/src/lib.rs:580-582 | the live thread list is returned exactly for a process with a relation, and its length is `thread_count` |
| TaskManage.PThreadManager.CurrentProc | task-manage/src/lib.rs:584-589 | the process of the running thread, exactly when the thread maps to a stored process |
| TaskManage.WaitChildReaps | task-manage/src/lib.rs:171-180 | with one record per child, waiting for a dead child returns its record and a second wait no longer finds it dead |
| TaskManage.ExitThenWait | task-manage/src/lib.rs:153-180 | `del_child` followed by `wait_child` of the same live child returns the recorded exit code |
| EfsBlock.WithU32 | easy-fs/src/block_cache.rs:59-82 | storing a u32 field through `modify` changes only its four bytes |
| EfsBlock.U32RoundTrip | easy-fs/src/block_cache.rs:43-82 | the little-endian encoding of a u32 field decodes to the same value |
| EfsBlock.U32AtWith | easy-fs/src/block_cache.rs:43-82 | a field written and read back at the same offset gives the value; fields elsewhere keep theirs |
| EfsBlock.SetEntry | easy-fs/src/layout.rs:227-251 | writing entry k of an index block changes entry k and no other entry |
| EfsBlock.WithBit | easy-fs/src/layout.rs:94-139 | setting or clearing bit i of a bitmap block changes that bit and only the byte that holds it |
| EfsBlock.WithBitUndo | easy-fs/src/layout.rs:94-139 | setting a clear bit and clearing it again gives back the same bytes |
| EfsBitmap.Maximum | easy-fs/src/layout.rs:141-143 | a bitmap manages 4096 bits per block |
| EfsBitmap.FindClear | easy-fs/src/layout.rs:100-105 | the search in one bitmap block returns its lowest clear bit, or None exactly when all 4096 bits are set |
| EfsBitmap.FirstClearInWord | easy-fs/src/layout.rs:104-105 | the trailing ones of a word that is not all ones give its lowest clear bit |
| EfsBitmap.FullWordExtends | easy-fs/src/layout.rs:100-103 | a full u64 word extends the run of set bits by 64 |
| EfsBitmap.FoundInBlock | easy-fs/src/layout.rs:95-117 | a clear bit found in block k after every earlier block was full is the lowest clear bit of the whole bitmap |
| EfsBitmap.FullBlock | easy-fs/src/layout.rs:95-117 | a full block extends the prefix of set bits by a whole block |
| EfsBitmap.Alloc | easy-fs/src/layout.rs:94-123 | the lowest clear bit is set and returned and no other bit changes; None is returned, with the disk unchanged, exactly when every bit is set |
| EfsBitmap.Dealloc | easy-fs/src/layout.rs:125-139 | a set bit is cleared and nothing else on the disk changes |
| EfsBitmap.MarkedIsSet | easy-fs/src/layout.rs:125-139 | marking one bit changes that bit and no other bit of the bitmap |
| EfsBitmap.AllocThenDealloc | easy-fs/src/layout.rs:94-139 | freeing the bit just allocated restores the disk exactly |
| EfsLayout.Initialize | easy-fs/src/layout.rs:47-63 | `initialize` replaces every field and stamps the magic, so the super block is valid |
| EfsLayout.SuperRoundTrip | easy-fs/src/layout.rs:30-43 | a super block stored in a block reads back with every field equal |
| EfsLayout.WithSuper | easy-fs/src/layout.rs:30-43 | storing the 24-byte super block leaves the rest of block 0 alone |
| EfsLayout.EmptyEntry | easy-fs/src/layout.rs:502-507 | the empty entry has a zero name field and inode number 0 |
| EfsLayout.NewEntry | easy-fs/src/layout.rs:510-517 | the name's bytes go to the front of a zeroed 28-byte field with the inode number beside it |
| EfsLayout.ZeroPos | easy-fs/src/layout.rs:541 | the position of the first NUL byte, or None when there is none |
| EfsLayout.NameAsWritten | easy-fs/src/layout.rs:540-543 | the name read back is a prefix of the field of at most 27 bytes |
| EfsLayout.NameAsWrittenTruncates | easy-fs/src/layout.rs:510-543 | a 28-byte name that `new` accepts is read back one byte short |
| EfsLayout.NameAsWrittenRoundTrip | easy-fs/src/layout.rs:510-543 | every NUL-free name of at most 27 bytes is read back unchanged |
| EfsLayout.Name | easy-fs/src/layout.rs:540-543 | the intended decoding: the longest NUL-free prefix of the whole 28-byte field |
| EfsLayout.NameRoundTrip | easy-fs/src/layout.rs:510-543 | under the intended decoding every NUL-free name of at most 28 bytes is read back unchanged |
| EfsLayout.EntryBytes | easy-fs/src/layout.rs:520-527 | an entry's bytes are 32 long |
| EfsLayout.EntryRoundTrip | easy-fs/src/layout.rs:520-537 | an entry's 32 bytes decode to the same entry |
| EfsInode.Initialized | easy-fs/src/layout.rs:175-181 | an initialized inode has size 0, no block ids and the given kind, and is a directory or a file exactly as that kind says |
| EfsInode.DataBlocks | easy-fs/src/layout.rs:194-200 | without u32 overflow the number of data blocks is the ceiling of size/512 |
| EfsInode.Total | easy-fs/src/layout.rs:203-218 | a file occupies at least as many blocks as it has data blocks |
| EfsInode.TotalClosedForm | easy-fs/src/layout.rs:203-218 | the closed form of `total_blocks` counts exactly the data and index blocks of the layout, block by block |
| EfsInode.TotalStep | easy-fs/src/layout.rs:203-218 | one more data block adds itself and the index blocks it brings into use |
| EfsInode.TotalMonotone | easy-fs/src/layout.rs:203-218 | growing by k data blocks adds at least k blocks |
| EfsInode.BlocksNumNeeded | easy-fs/src/layout.rs:221-224 | without u32 overflow the blocks needed are the difference of the two totals |
| EfsInode.LayoutUpTo | easy-fs/src/layout.rs:227-251 | the blocks a file of n data blocks occupies, in allocation order, number `Total(n)` |
| EfsInode.LayoutKeeps | easy-fs/src/layout.rs:253-331 | growing a file only appends to its layout; earlier positions keep their block |
| EfsInode.DataAt | easy-fs/src/layout.rs:227-251 | data block i, as `get_block_id` finds it, sits at its fixed position in the layout |
| EfsInode.BoundaryAt | easy-fs/src/layout.rs:227-251 | the index blocks that data block i brings into use sit just before it |
| EfsInode.Indirect1At | easy-fs/src/layout.rs:268-276 | the singly-indirect block sits right after the 28 direct blocks |
| EfsInode.Indirect2At | easy-fs/src/layout.rs:293-301 | the doubly-indirect block sits right after the singly-indirect range |
| EfsInode.L1At | easy-fs/src/layout.rs:311-322 | the a-th second-level block sits just before the first data block it indexes |
| EfsInode.LayoutFrame | easy-fs/src/layout.rs:227-251 | the layout of the first n data blocks depends only on the entries read to reach them |
| EfsInode.WriteEntry | easy-fs/src/layout.rs:281-288 | writing entry k of an index block changes that entry only, and no other block |
| EfsInode.DirectStep | easy-fs/src/layout.rs:262-266 | filling direct slot n appends that data block to the layout |
| EfsInode.Indirect1Step | easy-fs/src/layout.rs:268-288 | filling entry n-28 of the singly-indirect block appends the data block, preceded by the index block the first time |
| EfsInode.Indirect2NewStep | easy-fs/src/layout.rs:311-325 | a fresh second-level block is recorded in the doubly-indirect block and its entry 0 gets the data block; the layout grows by those blocks |
| EfsInode.Indirect2OldStep | easy-fs/src/layout.rs:315-325 | a further entry of an existing second-level block appends one data block |
| EfsInode.Layout | easy-fs/src/layout.rs:203-251 | the blocks a file occupies now number `Total` of its data blocks |
| EfsGrow.Grow | easy-fs/src/layout.rs:253-331 | the blocks a grown file occupies are its old layout followed by the ids handed to `increase_size`, as many as the new total needs |
| EfsGrow.GrowStart | easy-fs/src/layout.rs:258-261 | before any slot is filled, the resized inode still has its old layout and nothing is written |
| EfsGrow.GrowDone | easy-fs/src/layout.rs:253-331 | after the last step the file's layout is exactly the old one followed by the new blocks |
| EfsGrow.GrowStep | easy-fs/src/layout.rs:253-331 | placing one more data block as the next layout block keeps every block outside the layout and every data block placed so far as it was |
| EfsGrow.GrowByWrite | easy-fs/src/layout.rs:281-325 | writing one entry into an index block of the layout places one data block and keeps everything `increase_size` keeps |
| EfsGrow.GrowDirect | easy-fs/src/layout.rs:262-266 | the direct loop: slot n takes the next new block |
| EfsGrow.GrowIndirect1Alloc | easy-fs/src/layout.rs:268-276 | the singly-indirect block is taken from the supply once the 28 direct slots are full |
| EfsGrow.GrowIndirect1 | easy-fs/src/layout.rs:281-288 | entry n-28 of the singly-indirect block takes the next new block |
| EfsGrow.GrowIndirect2Alloc | easy-fs/src/layout.rs:293-301 | the doubly-indirect block is taken from the supply once the singly-indirect range is full |
| EfsGrow.GrowDoubleNew | easy-fs/src/layout.rs:311-325 | in the doubly-indirect range a fresh second-level block takes the next id and its entry 0 the one after |
| EfsGrow.GrowDoubleOld | easy-fs/src/layout.rs:315-325 | a further entry of an existing second-level block takes the next id |
| EfsGrow.FillDirect | easy-fs/src/layout.rs:262-266 | the first loop fills the direct slots up to min(total, 28) with the next ids |
| EfsGrow.AllocIndirect1 | easy-fs/src/layout.rs:268-276 | the singly-indirect block is taken when the direct slots are exactly full |
| EfsGrow.FillIndirect1 | easy-fs/src/layout.rs:279-288 | the second loop fills the singly-indirect entries up to min(total, 156) - 28 |
| EfsGrow.AllocIndirect2 | easy-fs/src/layout.rs:293-301 | the doubly-indirect block is taken when the singly-indirect range is exactly full |
| EfsGrow.FillIndirect2 | easy-fs/src/layout.rs:304-329 | the (a0, b0) walk up to (a1, b1) allocates a second-level block whenever b0 is 0 and fills one entry per step |
| EfsGrow.IncreaseSize | easy-fs/src/layout.rs:253-331 | the new inode has the new size and kind, its layout is the old one followed by the supplied ids, no block outside the layout changes, and every data block keeps its contents |
| EfsClear.Entries | easy-fs/src/layout.rs:356-363 | the first k entries of an index block, in order |
| EfsClear.ClearStep | easy-fs/src/layout.rs:334-404 | one more data block extends `clear_size`'s listing the way it extends the layout |
| EfsClear.ClearOrderIsLayout | easy-fs/src/layout.rs:334-404 | `clear_size` lists exactly the blocks of the layout, in allocation order |
| EfsClear.ListedDirect | easy-fs/src/layout.rs:341-353 | a file of at most 28 data blocks occupies just its first direct slots |
| EfsClear.ListedIndirect1 | easy-fs/src/layout.rs:347-363 | a file reaching into the singly-indirect range occupies the direct slots, the singly-indirect block and its first entries |
| EfsClear.ListedDouble | easy-fs/src/layout.rs:367-402 | a file reaching into the doubly-indirect range also occupies the doubly-indirect block, a1 full groups and a partial one of b1 entries |
| EfsClear.ReleaseDirect | easy-fs/src/layout.rs:341-345 | the direct loop lists the first n direct ids and zeroes exactly those slots |
| EfsClear.PushEntries | easy-fs/src/layout.rs:356-363 | the entry loop appends the first n entries of the block |
| EfsClear.PushGroups | easy-fs/src/layout.rs:378-388 | the group loop appends each of the first a1 second-level blocks followed by all its entries |
| EfsClear.PushDouble | easy-fs/src/layout.rs:375-400 | the doubly-indirect part lists the a1 full groups and then, when b1 > 0, block a1 with its first b1 entries |
| EfsClear.ClearSize | easy-fs/src/layout.rs:334-404 | the returned ids are exactly the file's layout, as many as `total_blocks(size)`; the inode keeps its kind, gets size 0, and has the used direct slots and the used index pointers zeroed |
| EfsReadWrite.RangeEnd | easy-fs/src/layout.rs:415-454 | a copy stops at the end of the buffer or at the end of the file, whichever comes first |
| EfsReadWrite.WriteBytes | easy-fs/src/layout.rs:468-472 | one block's copy replaces exactly the bytes lo .. lo+len of that block and no other block |
| EfsReadWrite.WriteNothing | easy-fs/src/layout.rs:452-472 | an empty copy, which `write_at` performs at the end of the file, leaves the device as it was |
| EfsReadWrite.IndexApart | easy-fs/src/layout.rs:227-251 | no data block of a well-formed file is one of its index blocks |
| EfsReadWrite.DataApart | easy-fs/src/layout.rs:227-251 | two different data blocks of a well-formed file are different device blocks |
| EfsReadWrite.DataWrite | easy-fs/src/layout.rs:462-472 | writing into one data block changes neither the layout nor the mapping of any data block, nor any other data block or outside block |
| EfsReadWrite.WriteBlockBytes | easy-fs/src/layout.rs:462-472 | one block's copy puts the given bytes at their file positions and keeps every other file byte and outside block |
| EfsReadWrite.WriteStep | easy-fs/src/layout.rs:458-481 | a copy into the block holding byte `start` extends the written range from `start` to `next` |
| EfsReadWrite.CopyBlock | easy-fs/src/layout.rs:458-476 | one pass of the write loop extends the written range by the bytes copied |
| EfsReadWrite.ReadAt | easy-fs/src/layout.rs:408-446 | the count is min(offset + len, size) - offset, or 0 at or past the end; the first count bytes of the buffer are the file's bytes from `offset`; the rest of the buffer is untouched |
| EfsReadWrite.WriteAt | easy-fs/src/layout.rs:448-485 | the count is min(offset + len, size) - offset; exactly the file bytes offset .. offset+count now hold the buffer's bytes; every other file byte, the layout and every block outside the file are unchanged |
| Efs.U32sBytesAt | easy-fs/src/layout.rs:160-171 | element i of an encoded u32 array sits at bytes 4i .. 4i+4 |
| Efs.KindByte | easy-fs/src/layout.rs:151-154 | the inode kind is stored as its discriminant, 0 for a file |
| Efs.ParseInodeBytes | easy-fs/src/layout.rs:160-171 | parsing the `#[repr(C)]` bytes of a disk inode gives it back |
| Efs.WithInode | easy-fs/src/vfs.rs:61-66 | storing a disk inode writes its field bytes at the offset and keeps every other byte of the block |
| Efs.InodeRoundTrip | easy-fs/src/vfs.rs:54-66 | a disk inode stored at an offset reads back equal from the same offset |
| Efs.InodeFrame | easy-fs/src/vfs.rs:54-66 | storing a disk inode leaves the inodes in the other slots of the block unchanged |
| Efs.CreateGeometry | easy-fs/src/efs.rs:58-68 | `create` writes a valid super block with the given total and inode-bitmap sizes |
| Efs.CreateGeometrySound | easy-fs/src/efs.rs:58-68 | the regions tile the device exactly; the inode area has a slot for every inode-bitmap bit; the data bitmap covers the data area, and one bitmap block fewer would not |
| Efs.FsOf | easy-fs/src/efs.rs:92-110 | the regions a super block describes lie one after the other from block 1 (also lines 164-183) |
| Efs.Open | easy-fs/src/efs.rs:146-186 | `open` reads back the regions described by the valid super block in block 0 |
| Efs.OpenSuper | easy-fs/src/efs.rs:79-91 | block 0 of a freshly created device, opened, describes the regions `create` laid out (also lines 146-186) |
| Efs.DiskInodePos | easy-fs/src/efs.rs:192-197 | each inode slot lies inside a block, at a multiple of 128 bytes |
| Efs.DiskInodePosInjective | easy-fs/src/efs.rs:192-197 | different inodes have different slots, four to a block from the inode-area start |
| Efs.StoreInode | easy-fs/src/vfs.rs:61-66 | after storing inode `id`, that inode reads back and every other inode and block is unchanged |
| Efs.DataBlockId | easy-fs/src/efs.rs:208-210 | data-area block d is device block `data_area_start + d` |
| Efs.RootInodePos | easy-fs/src/efs.rs:258-262 | the root directory's slot is the first slot of the inode area, and no other inode has it |
| Efs.AllocInode | easy-fs/src/efs.rs:216-218 | the lowest free inode id is returned and marked, and no other bit changes |
| Efs.AllocData | easy-fs/src/efs.rs:224-227 | the lowest free data bit is marked and returned as the device block `data_area_start + bit` |
| Efs.Zeroed | easy-fs/src/efs.rs:238-242 | the device with one block filled with zeros and the others unchanged |
| Efs.DeallocData | easy-fs/src/efs.rs:236-247 | the block is zeroed and then its data bit cleared; nothing else changes |
| Efs.AllocThenDeallocData | easy-fs/src/efs.rs:224-247 | freeing a data block just taken clears its bit again: the device is as before except that the block now holds zeros |
| Efs.ZeroBlocks | easy-fs/src/efs.rs:71-77 | `create`'s first loop zeroes blocks 0 .. n-1 and keeps the rest |
| Efs.Format | easy-fs/src/efs.rs:71-89 | after zeroing, block 0 holds the super block and blocks 1 .. n-1 are zero |
| Efs.AllocRoot | easy-fs/src/efs.rs:115-116 | on a zeroed inode bitmap `alloc_inode` returns 0, as `create` asserts |
| Efs.CreateRoot | easy-fs/src/efs.rs:115-127 | inode 0 is the only inode marked and holds an empty directory; only the first inode-bitmap block and the first inode-area block change |
| Efs.Create | easy-fs/src/efs.rs:48-132 | the super block describes the regions; opening the device finds the same regions; the root directory is inode 0, the only inode in use; no data block is in use; blocks past the total are untouched |
| Efs.SmallGeometry | easy-fs/src/efs.rs:58-68 | with 1028 blocks and one inode-bitmap block the data area is the single block 1027, while the data bitmap has 4096 bits |
| Efs.AllocTwo | easy-fs/src/efs.rs:224-227 | two allocations from a bitmap whose first two bits are free return the first two data blocks |
| Efs.AllocPastDevice | easy-fs/src/efs.rs:58-68 | on that 1028-block device the second `alloc_data` returns block 1028, past the device (also lines 224-227) |
| Efs.AllocDataInArea | easy-fs/src/efs.rs:224-227 | the corrected allocation returns the lowest free block inside the data area, and only that bit is marked |
| BlockCache.WriteBlock | easy-fs/src/block_cache.rs:84-90 | `write_block` replaces exactly one block of the device |
| BlockCache.PatchBytes | easy-fs/src/block_cache.rs:59-82 | a patch puts its bytes at the offset and keeps every other byte |
| BlockCache.BlockCache.constructor | easy-fs/src/block_cache.rs:25-35 | a new cache holds a copy of the device's block and is not modified |
| BlockCache.BlockCache.ReadAt | easy-fs/src/block_cache.rs:43-74 | reading returns the bytes of the value at the offset |
| BlockCache.BlockCache.Modify | easy-fs/src/block_cache.rs:59-82 | modifying replaces the value's bytes at the offset, keeps every other byte and marks the block modified |
| BlockCache.BlockCache.Sync | easy-fs/src/block_cache.rs:84-95 | a modified block is written back to the device and marked clean; a clean block writes nothing |
| BlockCache.Find | easy-fs/src/block_cache.rs:130 | the position of the first entry for the block, or None when no entry holds it |
| BlockCache.FirstUnused | easy-fs/src/block_cache.rs:137-141 | the position of the first entry only the queue holds, or None when every entry is held elsewhere |
| BlockCache.BlockCacheManager.constructor | easy-fs/src/block_cache.rs:111-115 | a new manager has an empty queue |
| BlockCache.BlockCacheManager.GetBlockCache | easy-fs/src/block_cache.rs:124-153 | a cached block is handed out again with the device unchanged; otherwise, below 16 entries, a fresh copy of the device's block is appended; at 16 entries the first entry nobody else holds is dropped, which writes it back if modified, and the new entry is appended; with no such entry the result is None |
| BlockCache.BlockCacheManager.Reuse | easy-fs/src/block_cache.rs:130-132 | the hit hands out entry k's cache once more |
| BlockCache.BlockCacheManager.Evict | easy-fs/src/block_cache.rs:93-143 | removing an entry drops its cache, which writes the block back if modified |
| BlockCache.BlockCacheManager.Append | easy-fs/src/block_cache.rs:150-152 | a fresh copy of the device's block is appended and found at the back |
| BlockCache.BlockCacheManager.FindEntry | easy-fs/src/block_cache.rs:130 | the search loop finds the first entry for the block |
| BlockCache.BlockCacheManager.FindUnused | easy-fs/src/block_cache.rs:137-141 | the search loop finds the first entry whose strong count is 1 |
| BlockCache.BlockCacheManager.Release | easy-fs/src/block_cache.rs:10-22 | a caller dropping its handle lowers the entry's user count by one and changes nothing else |
| BlockCache.BlockCacheManager.SyncAll | easy-fs/src/block_cache.rs:175-180 | every cached block is synced in queue order; none stays modified and the device holds what flushing the queue writes |
| BlockCache.FindSameIds | easy-fs/src/block_cache.rs:130 | the lookup depends only on the entries' block ids |
| BlockCache.FindAfterAppend | easy-fs/src/block_cache.rs:150-152 | a block appended to a queue without it is found at the back |
| VfsInode.NodeOf | easy-fs/src/efs.rs:192-200 | inode `id` sits in block `inodeAreaStart + id / 4` at byte offset `(id % 4) * 128` |
| VfsInode.DiskInodeOf | easy-fs/src/vfs.rs:54-58 | the disk inode read from an inode's slot is a well-shaped inode |
| VfsInode.StoreAt | easy-fs/src/vfs.rs:61-66 | after `modify_disk_inode` the slot reads back the inode left there, and every other slot and every other block is unchanged |
| VfsInode.NodeIsSlot | easy-fs/src/efs.rs:192-200 | every inode number the inode bitmap can hand out has its slot inside the inode area |
| VfsInode.SlotsApart | easy-fs/src/efs.rs:192-200 | two different inode slots of one block do not overlap |
| VfsInode.SameContents | easy-fs/src/layout.rs:408-446 | a file whose blocks all read the same in a second device state has the same layout and the same bytes |
| VfsInode.TakeFree | easy-fs/src/efs.rs:224-227 | taking a free data-bitmap bit removes exactly that bit from the free set |
| VfsInode.TakeOne | easy-fs/src/efs.rs:224-227 | one `alloc_data` takes one more free block of the data area; only data-bitmap blocks change and no bit is cleared |
| VfsInode.AllocBlocks | easy-fs/src/vfs.rs:170-174 | the allocation loop takes `count` distinct free blocks, none of them the file's own; the file stays owned with the same layout and bytes |
| VfsInode.TakenKeepsFile | easy-fs/src/vfs.rs:170-174 | the blocks the allocation loop takes are not the file's, and the file keeps its layout, its bytes and its ownership |
| VfsInode.GrowKeepsIds | easy-fs/src/layout.rs:253-331 | a grown file keeps its old data blocks at the same layout positions |
| VfsInode.GrowBytes | easy-fs/src/layout.rs:253-331 | the grown file reads its old bytes at the old positions |
| VfsInode.GrewNothing | easy-fs/src/vfs.rs:167-169 | a file that does not grow satisfies the growth relation with itself |
| VfsInode.IncreaseInode | easy-fs/src/vfs.rs:162-182 | the file ends at `max(size, newSize)` bytes, still owned; the free count drops by exactly the blocks the new size adds; old bytes are kept, new blocks were free before, no bit is cleared, and nothing outside the bitmap and the file changes |
| VfsInode.WriteAtNode | easy-fs/src/vfs.rs:232-245 | every byte of the buffer is written and the count returned is its length; the file grows to cover the write and reads the buffer over its range and its old bytes elsewhere; other inode slots and unrelated blocks are unchanged |
| VfsInode.GrowAndWrite | easy-fs/src/vfs.rs:235-240 | the closure body grows the inode to `offset + len` and writes the buffer into the grown file |
| VfsInode.ReadAtNode | easy-fs/src/vfs.rs:215-230 | the count read is `min(offset + len, size) - offset` (0 at or past the end), those bytes are the file's bytes from `offset`, and the rest of the buffer is untouched |
| VfsInode.WriteThenRead | easy-fs/src/vfs.rs:215-245 | `write_at` followed by `read_at` over the same range returns every written byte |
| VfsInode.GiveFree | easy-fs/src/efs.rs:236-247 | freeing a marked data-bitmap bit adds exactly that bit to the free set |
| VfsInode.DeallocFrame | easy-fs/src/efs.rs:236-247 | `dealloc_data` zeroes its block and clears its bit; nothing else changes |
| VfsInode.OwnedReleasable | easy-fs/src/vfs.rs:250-253 | the blocks of an owned file are distinct, in the data area and marked, so each may be given back |
| VfsInode.ReleaseOne | easy-fs/src/vfs.rs:252-254 | one `dealloc_data` of the clear loop releases one more block |
| VfsInode.ReleaseBlocks | easy-fs/src/vfs.rs:252-254 | the clear loop gives back every block of the list, in order: zeroed, bits cleared, every other bit and block kept |
| VfsInode.EmptyOwned | easy-fs/src/layout.rs:334-404 | an empty file uses no block and is owned by any file system |
| VfsInode.ClearNode | easy-fs/src/vfs.rs:247-258 | the file is left empty with its kind kept; every block it used reads as zeros with its bit clear; the free count grows by exactly those blocks; other slots and blocks are unchanged |
| VfsDir.EntryCount | easy-fs/src/vfs.rs:94 | a directory of `size` bytes holds `size / 32` whole entries |
| VfsDir.Entries | easy-fs/src/vfs.rs:94-104 | the directory's entries, one per whole 32-byte record, each decoded from its bytes |
| VfsDir.FirstNamed | easy-fs/src/vfs.rs:96-110 | the index of the first entry whose decoded name equals the argument, and no earlier entry has it; None exactly when no entry has it |
| VfsDir.Lookup | easy-fs/src/vfs.rs:92-113 | `find_inode_id` answers Some exactly when some entry carries the name |
| VfsDir.LookupAt | easy-fs/src/vfs.rs:105-107 | the first entry carrying the name gives the inode number found |
| VfsDir.LookupAppend | easy-fs/src/vfs.rs:92-113 | appending an entry keeps every earlier answer and finds the new name only when it was absent |
| VfsDir.Names | easy-fs/src/vfs.rs:184-203 | `readdir` lists one name per entry, in entry order, each decoded as `DirEntry::name` does |
| VfsDir.ReadEntry | easy-fs/src/vfs.rs:97-104 | reading entry `i` into the 32-byte buffer fills it with that entry's bytes |
| VfsDir.LoadEntry | easy-fs/src/vfs.rs:95-104 | reading entry i into the reused 32-byte buffer yields entry i of the directory's bytes |
| VfsDir.FoundAt | easy-fs/src/vfs.rs:105-107 | the entry the search stopped at is the one Lookup names |
| VfsDir.NotFound | easy-fs/src/vfs.rs:109 | a search that saw every entry without a match finds nothing |
| VfsDir.FindInodeId | easy-fs/src/vfs.rs:92-113 | the search loop returns exactly Lookup over the directory's entries |
| VfsDir.Find | easy-fs/src/vfs.rs:76-90 | None when no entry carries the name, otherwise the handle of the slot of the inode number found |
| VfsDir.ListedAll | easy-fs/src/vfs.rs:188-201 | listing every entry gives all their names |
| VfsDir.Readdir | easy-fs/src/vfs.rs:184-203 | the loop returns the names of all entries, in order |
| VfsDir.KeptAboveInodes | easy-fs/src/vfs.rs:130-138 | writes before the data bitmap leave every file's blocks, bytes and the free data blocks alone |
| VfsDir.NewFileInode | easy-fs/src/vfs.rs:130-138 | `alloc_inode` takes the lowest free inode number, marks only its bit, and its slot becomes an empty file; other slots and everything from the data bitmap on are unchanged |
| VfsDir.NewDirSize | easy-fs/src/vfs.rs:141-142 | the new size is room for one entry more than the whole ones, and larger than the current size |
| VfsDir.AppendedEntries | easy-fs/src/vfs.rs:141-147 | a directory grown by 32 bytes with an entry written at the end of its last whole entry lists its old entries followed by that entry |
| VfsDir.AppendEntry | easy-fs/src/vfs.rs:139-148 | the directory grows as `write_at` grows a file and lists one more entry, the new one, at its end |
| VfsDir.EntriesKept | easy-fs/src/vfs.rs:139-148 | a directory whose bytes read the same lists the same entries |
| VfsDir.CreatedAfter | easy-fs/src/vfs.rs:121-160 | allocating the inode and then appending the entry leaves the state `create` promises |
| VfsDir.Create | easy-fs/src/vfs.rs:121-160 | a name already present changes nothing and gives None; otherwise the lowest free inode number becomes an empty file, the directory gains the entry at its end, and the handle of the new inode is returned |
| VfsDir.CreateThenFind | easy-fs/src/vfs.rs:105-148 | after `create` appends a name of at most 27 NUL-free bytes that was absent, `find` gives its inode number |
| VfsDir.CreateKeepsOthers | easy-fs/src/vfs.rs:105-148 | creating a name changes the answer for no other name |
| VfsDir.ReaddirAfterCreate | easy-fs/src/vfs.rs:184-203 | after `create`, `readdir` lists the old names and then the new one |
| VfsDir.CreateLongNameMisses | easy-fs/src/layout.rs:510-543 | a NUL-free 28-byte name is stored by `create` but `find` still misses it and `readdir` lists it one byte short |
| VfsDir.CreateThenFindNode | easy-fs/src/vfs.rs:76-160 | `create` of a new findable name succeeds and `find` of that name then returns the very handle `create` returned |
| VfsBuffer.Lengths | easy-fs/src/vfs.rs:274-276 | one length per slice, each that slice's length |
| VfsBuffer.SumAppend | easy-fs/src/vfs.rs:274-276 | the sum of lengths splits over concatenation |
| VfsBuffer.ConcatAppend | easy-fs/src/vfs.rs:262-265 | the bytes of two runs of slices are the bytes of each, one after the other |
| VfsBuffer.ConcatLength | easy-fs/src/vfs.rs:274-276 | the bytes the slices span number the sum of their lengths |
| VfsBuffer.ConcatPrefix | easy-fs/src/vfs.rs:262-265 | the bytes of the first k slices begin the bytes of the whole buffer |
| VfsBuffer.SumZero | easy-fs/src/vfs.rs:279-281 | the lengths add up to 0 exactly when every slice is empty |
| VfsBuffer.Len | easy-fs/src/vfs.rs:274-276 | `len()` is the number of bytes the slices span |
| VfsBuffer.IsEmpty | easy-fs/src/vfs.rs:279-281 | `is_empty()` holds exactly when every slice is empty |
| VfsBuffer.PositionsMembers | easy-fs/src/vfs.rs:307-319 | the positions the iterator has left from (slice i, byte j) are exactly the bytes at or after it |
| VfsBuffer.PositionsOrdered | easy-fs/src/vfs.rs:307-319 | the positions come in strictly increasing order |
| VfsBuffer.PositionsCount | easy-fs/src/vfs.rs:307-319 | from (i, j) there are as many positions left as bytes from there on |
| VfsBuffer.AllPositions | easy-fs/src/vfs.rs:284-319 | the iterator yields every byte of every slice exactly once, slice by slice and in order, and `len()` items in all |
| VfsBuffer.UserBufferIterator.constructor | easy-fs/src/vfs.rs:288-294 | `into_iter` starts at slice 0, byte 0, with every position still to come |
| VfsBuffer.UserBufferIterator.Next | easy-fs/src/vfs.rs:307-319 | None once the slices are exhausted, with the cursor unchanged; otherwise the next position in order, which is then consumed |
| VfsBuffer.CollectPositions | easy-fs/src/vfs.rs:284-319 | draining the iterator yields exactly the positions of the buffer, `len()` of them |
| VfsHandleSpec.FirstEmpty | easy-fs/src/vfs.rs:429-431 | the first empty slice, where a read of 0 bytes stops the loop; every slice before it is non-empty |
| VfsHandleSpec.Content | easy-fs/src/layout.rs:408-446 | the file's bytes in order, `size` of them |
| VfsHandleSpec.ContentAt | easy-fs/src/layout.rs:408-446 | byte p of the file's content is the byte `read_at` finds at p |
| VfsHandleSpec.ReadStops | easy-fs/src/vfs.rs:429-431 | a read of 0 at slice k, on an empty slice or at the end of the file, ends the loop with exactly ReadAmount transferred |
| VfsHandleSpec.ReadStep | easy-fs/src/vfs.rs:428-433 | a read of n > 0 bytes into slice k fills that slice with the file's next n bytes and advances the offset by n |
| VfsHandleSpec.ReadRest | easy-fs/src/vfs.rs:424-434 | slices after the last one read are untouched |
| VfsHandleSpec.ReadDone | easy-fs/src/vfs.rs:421-436 | when the loop ends the slices are filled as the read promises |
| VfsHandleSpec.UpdatedExtends | easy-fs/src/vfs.rs:232-245 | one `write_at` is a growth step of the file |
| VfsHandleSpec.ExtendedThenUpdated | easy-fs/src/vfs.rs:453-458 | growth to n1 followed by a `write_at` growing to n2 >= n1 is growth to n2 |
| VfsHandleSpec.TotalBlocksGrow | easy-fs/src/layout.rs:203-219 | the blocks a file needs never shrink as its size grows |
| VfsHandleSpec.StartWrite | easy-fs/src/vfs.rs:452 | before the write loop nothing is written |
| VfsHandleSpec.Advance | easy-fs/src/vfs.rs:453-458 | `write_at` of slice k at the offset the slices before it reached carries the loop's progress from k slices to k + 1 |
| VfsHandleSpec.WroteAll | easy-fs/src/vfs.rs:451-461 | once every slice is written the file holds their concatenation from the starting offset and keeps its other bytes |
| VfsHandle.ReadWrite | easy-fs/src/vfs.rs:343-351 | readable exactly when WRONLY is clear; writable exactly when some flag is set |
| VfsHandle.AccessModes | easy-fs/src/vfs.rs:323-351 | for each access mode plus CREATE/TRUNC bits: WRONLY never reads, and any extra bit makes even RDONLY writable |
| VfsHandle.ReadOne | easy-fs/src/vfs.rs:425-428 | `read_at` into one slice returns `min(off + len, size) - off` bytes (0 past the end), the file's bytes from `off`, and keeps the slice's length and tail |
| VfsHandle.ReadSlice | easy-fs/src/vfs.rs:424-433 | one turn of the read loop: a read of 0 stops with ReadAmount read, otherwise slice k is filled and the loop moves on |
| VfsHandle.ReadSlices | easy-fs/src/vfs.rs:423-434 | the read loop returns ReadAmount bytes and the slices hold the file's bytes from the offset, each keeping its length |
| VfsHandle.FileHandle.New | easy-fs/src/vfs.rs:376-383 | a handle on the inode with the given modes at offset 0 |
| VfsHandle.FileHandle.Empty | easy-fs/src/vfs.rs:391-398 | a handle with no inode, the given modes, at offset 0 |
| VfsHandle.FileHandle.Read | easy-fs/src/vfs.rs:421-436 | with an inode the slices are filled as ReadSlices says and the offset moves past the bytes read; without one nothing is read |
| VfsHandle.WriteOne | easy-fs/src/vfs.rs:454-455 | `write_at` of one slice writes all of it and grows the file as WriteAtNode says |
| VfsHandle.WriteSlice | easy-fs/src/vfs.rs:453-458 | one turn of the write loop writes slice k whole and carries the progress to k + 1 slices |
| VfsHandle.WriteSlices | easy-fs/src/vfs.rs:453-459 | the write loop writes every byte of every slice in order |
| VfsHandle.FileHandle.Write | easy-fs/src/vfs.rs:451-462 | with an inode, the file holds the buffer's bytes from the old offset on, its other bytes are kept, `len()` is returned and the offset moves past them; without one (or with no slices) nothing changes |
| ChapterShared.TimeOfTicks | ch6/src/main.rs:1007-1012 | at 10 MHz, `ticks` timer ticks read as whole seconds plus nanoseconds exactly `ticks * 100` in all, with the nanoseconds below one second |
| ChapterShared.PortalEntry | kernel-context/src/lib.rs:455-457 | the portal code starts at the transit entry of the portal page |
| ChapterShared.CacheAddr | kernel-context/src/lib.rs:459-462 | the cache of the unit slot key sits right after the portal code |
| ChapterShared.Launch | ch4/src/main.rs:480-500 | the chapter kernel's launch (also ch5/src/main.rs:799-817): after the user pc, a0 and flags are saved in the cache, the context is rewritten to enter the portal code with the cache address in a0, in supervisor mode with interrupts off, every other register unchanged |
| ChapterShared.Restore | kernel-context/src/lib.rs:405-407 | after the trap the context keeps the registers and pc the trap left and gets back the flags saved before the launch |
| ChapterShared.FillCache | kernel-context/src/lib.rs:404 | the cache holds the user satp, pc, a0 and the status word that restores the user's flags |
| ChapterShared.LaunchRestoreKeepsFlags | ch4/src/main.rs:484-502 | in the chapter kernel's launch, restoring the saved flags after a trap that changed nothing gives back the original context except the portal pc and a0 it wrote (also ch5/src/main.rs:803-819) |
| ChapterShared.AllocPidNonzero | ch6/src/main.rs:685-692 | the pid drawn is never 0, the pid of init; it is the counter's value unless that was 0, in which case it is 1 |
| ChapterShared.WaitTarget | ch6/src/main.rs:959-963 | -1 asks for any child (`usize::MAX`); any other pid is cast |
| ChapterShared.WaitpidValue | ch6/src/main.rs:968-983 | None gives -1, the "still running" sentinel gives -2, and a reaped child its pid, or -1 when its exit code could not be stored |
| ChapterShared.Waitpid | ch6/src/main.rs:954-984 | a pid below -1 gives -1 and changes nothing; otherwise the process manager's `wait` decides the answer as WaitpidValue says, and only the relations change |
| ChapterShared.WaitpidOutcomes | ch6/src/main.rs:954-984 | for a child of the caller: once exited it is reported with its pid and its record is gone; while running -2; a pid that is not a child gives -1 |
| ChapterCstr.CharLen | ch6/src/main.rs:742-743 | the length of the well-formed UTF-8 character that starts the bytes (0 for none), per Table 3-7 of the Unicode Standard; ASCII is one byte |
| ChapterCstr.Encode | ch6/src/main.rs:742-743 | a scalar value encodes to one to four bytes |
| ChapterCstr.EncodeDecode | ch6/src/main.rs:742-743 | every scalar value encodes to one well-formed character that decodes back to it |
| ChapterCstr.DecodeEncode | ch6/src/main.rs:742-743 | every well-formed character is the encoding of the scalar it decodes to |
| ChapterCstr.CharLenPrefix | ch6/src/main.rs:742-743 | a well-formed character followed by anything is read as the same character |
| ChapterCstr.ValidConcat | ch6/src/main.rs:742-743 | well-formed byte strings stay well-formed when joined |
| ChapterCstr.AsciiValid | ch6/src/main.rs:742-743 | plain ASCII is well-formed UTF-8 |
| ChapterCstr.CStringUnique | ch6/src/main.rs:735-748 | the C string at an address is unique |
| ChapterCstr.NoneUnmapped | ch6/src/main.rs:738-741 | non-NUL bytes up to an unreadable byte (or up to the limit) mean no C string shorter than the limit starts there |
| ChapterCstr.ReadUserCstr | ch6/src/main.rs:735-748 | Some exactly when the C string at ptr is shorter than 4096 bytes and well-formed UTF-8, and then it is that string; None means no such string exists |
| ChapterFd.FirstEmpty | ch6/src/main.rs:621-626 | the lowest empty slot at or after i, with every slot before it taken; None when every slot from i is taken |
| ChapterFd.Closed | ch6/src/main.rs:635-645 | -1 exactly for a descriptor out of range or already empty, with the table unchanged; otherwise 0 and that slot emptied |
| ChapterFd.Get | ch6/src/main.rs:631-633 | the handle in the slot; None for an empty slot or a descriptor past the end |
| ChapterFd.AllocatedHolds | ch6/src/main.rs:620-629 | the descriptor returned is at least 3 and holds the file; every other descriptor reads as before; the table grows only when no slot from 3 was free, and a reused slot is the lowest free one |
| ChapterFd.CloseThenReuse | ch6/src/main.rs:620-645 | closing the descriptor just allocated succeeds, and the next allocation reuses it |
| ChapterFd.FdTable.Stdio | ch6/src/main.rs:431-437 | a new table holds exactly the three standard streams |
| ChapterFd.FdTable.Clone | ch6/src/main.rs:439-448 | a forked child's table holds every slot of the parent's |
| ChapterFd.FdTable.AllocFd | ch6/src/main.rs:620-629 | the scan leaves the table and descriptor Allocated describes |
| ChapterFd.FdTable.CloseFd | ch6/src/main.rs:635-645 | the table and result are as Closed describes |
| ChapterFd.OpenCases | ch6/src/main.rs:344-372 | `open` fails only for a missing file without CREATE; the root paths open the root; CREATE opens an existing file cleared or creates a missing one; otherwise the file found is opened, cleared exactly under TRUNC; the modes are `read_write`'s |
| ChapterFd.CreateThenOpen | ch6/src/main.rs:344-372 | a file created by `open` with CREATE is what a later open of the same name reaches, and no other name's open changes |
| ChapterFd.SysOpen | ch6/src/main.rs:867-884 | -1 when the path is unreadable, `open` fails or nothing runs; otherwise the handle goes into the table as Allocated says and its descriptor is returned |
| ChapterFd.SysClose | ch6/src/main.rs:886-891 | -1 with nothing running, else the table and result Closed describes |
| VfsHandle.FromBitsTruncate | ch6/src/main.rs:876 | the defined flag bits of the raw word are kept and every other bit is dropped |
| VfsHandle.RawAccessModes | ch6/src/main.rs:876 | a raw open word is writable only when a defined bit is set; WRONLY alone stops reading |
| Ch3.NewTask | ch3/src/main.rs:38-47 | a new task starts in user mode at its entry with sp at its stack top, every other register zero, and not finished |
| Ch3.TrapOutcome | ch3/src/main.rs:141-200 | a timer interrupt only moves on; a finished syscall other than exit gets its value in a0 and the pc past the `ecall`, moving on only for `sched_yield`; exit, an unsupported syscall and every other trap finish the task and move on |
| Ch3.ClockGettime | ch3/src/main.rs:274-295 | MONOTONIC gives 0 and the normalised time of the ticks read; any other clock gives -1 and writes nothing |
| Ch3.RemainingUpdate | ch3/src/main.rs:109-200 | replacing one task changes the number of unfinished tasks by what that slot contributes before and after |
| Ch3.RemainingSame | ch3/src/main.rs:109-200 | task tables that agree below n have the same number of unfinished tasks |
| Ch3.RemainingZero | ch3/src/main.rs:122-127 | nothing is left to run exactly when no slot holds an unfinished task |
| Ch3.NextWraps | ch3/src/main.rs:119 | the slot after i is i + 1, or 0 after the last app |
| Ch3.AheadIs | ch3/src/main.rs:113-121 | up to one full turn, d steps from a slot land d slots ahead, wrapped once |
| Ch3.RingStep | ch3/src/main.rs:113-121 | k steps round the ring land k slots ahead |
| Ch3.RingCovers | ch3/src/main.rs:113-121 | every slot is reached within one turn, and a full turn comes back |
| Ch3.Scheduler.Load | ch3/src/main.rs:84-95 | app i of the first 16 gets a new task at its entry and stack; the app count is capped at 16; every loaded task is unfinished |
| Ch3.Scheduler.FindNext | ch3/src/main.rs:111-127 | the search finds a task exactly when some task is unfinished, stops at the first unfinished one round the ring from `current`, and leaves `current` where it was when none is |
| Ch3.Scheduler.Search | ch3/src/main.rs:111-127 | the search round the ring from `start` finds a task exactly when one is unfinished, stops on an unfinished one with every slot passed over finished, and stays at `start` when none is |
| Ch3.Scheduler.HandleTrap | ch3/src/main.rs:138-200 | the running slot takes TrapOutcome, every other slot is kept, `current` moves on modulo the app count where the rule says so, and the unfinished count drops by one exactly when a running task ends |
| Ch4.StackTop | ch4/src/main.rs:373 | the initial sp is 16-byte aligned, 16 bytes below the stack's top page boundary |
| Ch4.LoadedProcess | ch4/src/main.rs:257-381 | a process is loaded exactly for an accepted, parseable RISC-V executable whose segments leave the stack pages free and, under the failing loader, copy nothing onto a read-only page; it starts in user mode at the entry with sp at the stack top and every other register zero; the two stack pages are zero and VRWU; every other page is a covered one with the union of its segments' permissions; without a read-only overlap each page is the corrected pass's, so every byte is the last writer's |
| Ch4.StackFree | ch4/src/main.rs:367-370 | the stack pages can be mapped after the second pass exactly when no segment covers them |
| Ch4.LoadElf | ch4/src/main.rs:257-381 | the header checks, both page passes as written and the stack mapping give exactly Loaded |
| Ch4.LoadAllKeeps | ch4/src/main.rs:434-439 | every kept process is the load of some app, no more processes than apps, and none at all only when no app loads |
| Ch4.Outcome | ch4/src/main.rs:509-551 | exit, an unsupported syscall and every trap but a syscall or breakpoint remove process 0; a finished syscall writes its value to a0 and steps past the `ecall`; a breakpoint steps past the `ebreak` with registers kept; no other process is touched |
| Ch4.OutcomeKeepsOrder | ch4/src/main.rs:466-553 | each step either removes the first process or keeps the order, so app k runs only after apps before it have left |
| Ch4.Kernel.Boot | ch4/src/main.rs:434-439 | the process vector holds every app that loads, in app order |
| Ch4.Kernel.Step | ch4/src/main.rs:473-553 | the portal cache gets the user satp, pc, a0 and flags, and the process vector becomes Outcome of the trap on the restored context |
| Ch5.NulFrom | ch5/src/main.rs:283-285 | the first NUL at or after `from`, with no NUL before it; None when there is none |
| Ch5.FieldStartNone | ch5/src/main.rs:281-296 | once the name table has no field i it has no later field either |
| Ch5.NameAt | ch5/src/main.rs:279-298 | a name found is non-empty and free of NUL |
| Ch5.AppNameAt | ch5/src/main.rs:279-298 | the walk over the name table returns exactly NameAt: the index-th NUL-terminated name, None for an empty name |
| Ch5.NameAtJoin | ch5/src/main.rs:279-298 | on a table built of non-empty NUL-free names each followed by NUL, `app_name_at(i)` gives back name i |
| Ch5.NameAtShift | ch5/src/main.rs:281-296 | name i + 1 of a table is name i of the table after its first name |
| Ch5.GetAppByName | ch5/src/main.rs:300-314 | Some exactly when some index holds the name with every earlier index holding a different non-empty name, and then the app at the first such index |
| Ch5.ChosenJoin | ch5/src/main.rs:300-314 | on a well-built name table the search settles on the first app carrying the name |
| Ch5.ForkContext | ch5/src/main.rs:533-541 | the child context has the parent's pc, registers and flags, and a0 = 0 so the child sees fork return 0 |
| Ch5.Child | ch5/src/main.rs:529-550 | the child has a copy of the parent's address space and the same stack top |
| Ch5.ForkAsWritten | ch5/src/main.rs:522-556 | -1 with nothing running; otherwise the child, with the counter's next pid, is stored, queued and related to its parent, and its pid returned |
| Ch5.FirstForkCollides | ch5/src/main.rs:540 | the first fork from initproc hands out pid 0, initproc's own pid: the child takes its store entry and initproc is listed as its own child (also lines 758-760) |
| Ch5.Fork | ch6/src/main.rs:685-692 | as ForkAsWritten, with a child pid that is never 0, so initproc keeps its entry |
| Ch5.WaitpidArgs | ch5/src/main.rs:611-615 | with a null exit-code pointer the call waits for any child and takes the pid argument as the pointer; otherwise the arguments stand |
| Ch5.Waitpid | ch5/src/main.rs:610-637 | after the swap, -1 when the caller has no record; otherwise the manager's answer as WaitpidValue gives it, with the exit-code store attempted only for a reaped child and a non-null pointer |
| Ch5.SysExit | ch5/src/main.rs:516-520 | returns 0; the running process leaves the store and its children and code pass to the relations as `make_current_exited` does |
| Ch5.SysSchedYield | ch5/src/main.rs:645-649 | returns 0; the running process goes to the back of the queue and nothing else changes |
| Ch5.DisposalAsWritten | ch5/src/main.rs:826-870 | a breakpoint only moves the pc on, leaving the process neither running nor queued |
| Ch5.TrapDisposal | ch5/src/main.rs:826-870 | the loop's trap rules with a breakpoint also suspending: termination exactly on exit, an unsupported syscall (-2) or any other trap (-3) |
| Ch5.Apply | ch5/src/main.rs:839-869 | a termination removes the running process through `make_current_exited`; otherwise the new context is written back, and a suspension re-queues the running process |
| Ch5.ExitPath | ch5/src/main.rs:516-520 | the exit handler records the user's code and the loop's second `make_current_exited` finds nothing running and changes nothing (also lines 839-843) |
| Ch5.Stranded | ch5/src/main.rs:857-859 | a process left stored but not queued is never picked again, and an empty queue ends the kernel with it alive |
| Ch5.Requeued | ch5/src/main.rs:839-848 | a suspended process behind ids whose tasks are gone is the next one picked |
| Ch5.Getpid | ch5/src/main.rs:639-641 | the running pid, -1 when none runs |
| Ch6.Process.Of | ch6/src/main.rs:574-580 | a process from a loaded image starts with the three standard streams open |
| Ch6.Process.ForkOf | ch6/src/main.rs:586-606 | the child has the parent's context with a0 = 0, a copy of its address space, the same stack top and a copy of every descriptor |
| Ch6.Process.Fork | ch6/src/main.rs:586-606 | the child and its pid, never 0 and the counter's value when that is not 0; the child sees fork return 0 and is otherwise its parent's copy |
| Ch6.Process.Exec | ch6/src/main.rs:608-618 | -1 with the process untouched when the file does not load; otherwise 0, and the loaded context, address space and stack top replace the old ones while the descriptor table stays |
| Ch6.FromElfLayout | ch6/src/main.rs:463-584 | a process is loaded exactly for an accepted, parseable file whose non-empty segments leave the two pages below the portal free and copy nothing onto a read-only page; it starts at the entry with sp 16 bytes below those pages' top; the stack pages are zero and VRWU and every other page is the corrected pass's page |
| Ch6.SysFork | ch6/src/main.rs:895-914 | -1 with nothing running and nothing changed; otherwise the child is stored under its new pid, queued and related to the caller, and the caller gets the pid |
| Ch6.SysExec | ch6/src/main.rs:916-944 | -1 when the path cannot be read, names no file, or nothing runs; otherwise the result and new process are `exec`'s |
| Ch6.ClockGettime | ch6/src/main.rs:1002-1030 | only MONOTONIC is served: its time is normalised and `ticks * 100` ns in all, and the call returns 0 when the write to user memory succeeds, -1 when it fails; any other clock gives -1 and writes nothing |
| Ch6.ExitCode | ch6/src/main.rs:1150-1197 | the running process is suspended exactly after a finished syscall other than exit; exit ends it with the handler's value, an unsupported syscall with -2, and every other trap, a breakpoint included, with -3 |
| Ch6.Enter | ch6/src/main.rs:1151-1152 | before a syscall is handled the pc moves past the `ecall`; other traps leave the context as it is |
| Ch6.Settle | ch6/src/main.rs:1163-1197 | with an exit code the process leaves through `make_current_exited`; otherwise the syscall's value goes to a0 and the process goes to the back of the queue |
| Ch8.ThreadStackVpn | ch8/src/main.rs:481-484 | slot s's stack starts 2(s+1) pages below the portal page, and exists exactly when that product does not pass the portal's VPN |
| Ch8.SlotStacksDisjoint | ch8/src/main.rs:481-491 | the stacks of two different slots share no page and none reaches the portal page; slot 0 is the two pages just below it |
| Ch8.MapThreadStack | ch8/src/main.rs:481-491 | when the slot has room its two pages are mapped zeroed and VRWU and the sp is 16-byte aligned, 16 bytes below their end; None exactly when the slot has no room or a page is taken |
| Ch8.LoadWithMainStack | ch8/src/main.rs:493-592 | loading the user space and mapping slot 0 gives the process ch6's loader builds, empty segments passed over and the main stack just below the portal (also lines 599-606) |
| Ch8.LowestFreeSlot | ch8/src/main.rs:682-685 | the slot found is unused and every smaller slot is used |
| Ch8.Thread.constructor | ch8/src/main.rs:462-466 | a thread holds its tid, pid and a register array of its own with the given context |
| Ch8.Process.Of | ch8/src/main.rs:617-631 | a new process has the image, its main thread on slot 0, no waiters, the three standard streams and the initial signal state |
| Ch8.Process.StackSlotOf | ch8/src/main.rs:691-693 | the slot of a thread exactly when it has one |
| Ch8.Process.AllocThreadStack | ch8/src/main.rs:681-689 | the lowest unused slot is mapped and given to the thread, and the sp returned; when it cannot be mapped nothing changes |
| Ch8.Process.RemoveThreadStack | ch8/src/main.rs:695-699 | the thread's slot and waiter list are gone and the address space is unchanged |
| Ch8.Process.AddWaittidWaiter | ch8/src/main.rs:701-706 | the waiter is appended to the target's list, created empty when missing |
| Ch8.Process.TakeWaittidWaiters | ch8/src/main.rs:708-710 | the target's list, or none, is returned in arrival order and removed |
| Ch8.Process.Exec | ch8/src/main.rs:654-679 | no change and None when the file does not load; otherwise the new image, the caller alone on slot 0, no waiters, the signal state reset and the new context, while the descriptors stay |
| Ch8.FromElf | ch8/src/main.rs:599-633 | None exactly when the file does not load; otherwise a fresh process and main thread at the entry with sp at slot 0's top |
| Ch8.CheckedSignal | ch8/src/main.rs:1506-1509 | a signal number is accepted exactly when it is between 1 and MAX_SIG |
| Ch8.SysKill | ch8/src/main.rs:1502-1518 | 0 exactly for a non-negative pid of a live process and an accepted number, and the signal is then pending there; -1 otherwise; the target's mask, handled signal and other pending signals are kept, and on -1 its pending set is unchanged |
| Ch8.SysSigaction | ch8/src/main.rs:1521-1566 | 0 exactly when the number is accepted, the action is readable, a process runs, and neither a requested old action nor a new one concerns SIGKILL or SIGSTOP (and the old action is stored); the old action is written out and the new one installed only as the source orders them |
| Ch8.SysWaitpid | ch8/src/main.rs:1187-1217 | -1 for a pid below -1 or without a running process; otherwise the manager's wait on the caller's relation, with the value as in ch6 |
| Ch8.WaittidValue | ch8/src/main.rs:1276-1287 | -1 for an unknown thread; the still-running code blocks only when the caller was parked; any other code is returned |
| Ch8.SysWaittidAsWritten | ch8/src/main.rs:1261-1288 | -1 without a running thread or for a thread waiting on itself; otherwise the manager's answer, and the code -2 parks the caller in its process's waiter list |
| Ch8.ExitedMinusTwoParks | ch8/src/main.rs:1276-1283 | a thread that exited with code -2 makes its waiter park, while its record is consumed and it is in neither list, so no exit ever wakes the waiter |
| Ch8.ThreadWaitCases | ch8/src/main.rs:1261-1288 | with the intended test, an exited thread's code comes back for every code, a live thread parks the caller and an unknown one gives -1 |
| Ch8.SysWaittid | ch8/src/main.rs:1261-1288 | as SysWaittidAsWritten, except that the caller is parked exactly when the target is live |
| Ch8.SysThreadCreate | ch8/src/main.rs:1225-1255 | -1 with no running process, a missing process or an unmappable stack; otherwise a fresh thread at the entry with sp at the lowest free slot's top and the argument in a0 is queued under its process and its id returned; each thread keeps its own register array |
| Ch8.WakeWaiters | ch8/src/main.rs:830-844 | every waiter still present gets the exit code in a0 and rejoins the queue in waiting order; the others are passed over and nothing else changes |
| Ch8.Wake | ch8/src/main.rs:820-828 | one waiter gets the code in a0 and goes to the back of the queue |
| Ch8.Present | ch8/src/main.rs:838-843 | the waiters kept are exactly those still present, in order |
| Ch8.ExitCurrentThread | ch8/src/main.rs:859-868 | waiters of the thread are woken with the code and queued in order, its slot and waiter list are dropped, and it leaves the manager: recorded dead in its process, and when no live thread is left the process is deleted and its parent records the code (ThreadRetired) |
| Ch8.SyscallVerdict | ch8/src/main.rs:1757-1775 | exit quits with its value, an unsupported syscall with -2, BLOCKED_RETURN blocks and any other value suspends |
| Ch8.TrapRules | ch8/src/main.rs:1740-1837 | only a syscall returning BLOCKED_RETURN blocks and a deliverable SIGKILL overrides it; exit and unsupported syscalls skip signal handling; a kill ends the thread after other syscalls and timer interrupts; any other trap ends it with -3 |
| Ch8.HandleTrap | ch8/src/main.rs:1741-1837 | the thread's context and its process's signal state end up as the trap rules say, and the verdict is theirs |
| Ch8.Delivered | ch8/src/main.rs:1776-1820 | after `handle_signals`, a kill always replaces the verdict with the kill code, and any other outcome keeps it; the signal state and context stay well formed |
| Ch8.Deliver | ch8/src/main.rs:846-856 | the method's verdict, signal state and context are those Delivered gives for the old state and context (also lines 1776-1792, 1809-1820) |
| Ch8.Conclude | ch8/src/main.rs:1796-1827 | a quitting thread exits as ExitCurrentThread states (waiters woken with the code and queued in order, the thread removed, its stack slot and waiter list dropped, the thread recorded dead and its process deleted with the code passed to its parent once no live thread is left); a blocked one leaves the processor unqueued and a suspended one rejoins the queue, both with every table kept |
| KernelVm.InstallAt | kernel-vm/src/lib.rs:91-127 | after mapping a range, each of its pages maps to the matching page from the physical base with the flags, and every page outside it is mapped as before (also lines 386-416) |
| KernelVm.Translate | kernel-vm/src/lib.rs:189-215 | an address translates exactly when its page has a valid entry holding every requested flag, and then to the same offset within the entry's physical page (also lines 424-448) |
| KernelVm.InstallTranslates | kernel-vm/src/lib.rs:91-127 | after `map_extern` with valid flags an address in the range translates, for any subset of the flags, to the same offset from the physical base, and others translate as before (also lines 189-215) |
| KernelVm.MapReadsBack | kernel-vm/src/lib.rs:129-165 | the bytes `map` copies are read back through the new mapping at `start * 4096 + offset + j` (also lines 189-215) |
| KernelVm.FreedAppend | kernel-vm/src/lib.rs:217-243 | the pages freed for a list of areas are those for its two halves, in order |
| KernelVm.FreedOmitsSkipped | kernel-vm/src/lib.rs:224-229 | the area holding the skipped page adds nothing to the freed pages |
| KernelVm.FreedSkippedArea | kernel-vm/src/lib.rs:224-229 | a lone area holding the skipped page frees nothing |
| KernelVm.AddressSpace.constructor | kernel-vm/src/lib.rs:67-77 | a new address space has no areas, an empty table and a live root |
| KernelVm.AddressSpace.MapExtern | kernel-vm/src/lib.rs:91-127 | the range joins the areas and its pages map to consecutive pages from the base with the flags, the rest of the table unchanged |
| KernelVm.AddressSpace.Map | kernel-vm/src/lib.rs:129-165 | fresh pages receive the offset's zeros, the data and zeros to the end, are mapped as `map_extern` does, and no other memory changes |
| KernelVm.AddressSpace.CopyLeafPteFrom | kernel-vm/src/lib.rs:167-187 | the source's valid entry for the page is installed; an absent or invalid one changes nothing |
| KernelVm.AddressSpace.FreeAllocatedPagesAndRoot | kernel-vm/src/lib.rs:217-243 | the areas are emptied, the root released, and the deallocation requests are exactly those for non-empty areas with a valid first page not holding the skipped page, in order |
| KernelVm.PagesStep | kernel-vm/src/lib.rs:245-286 | cloning one more area keeps the pages cloned so far and leaves the later targets free |
| KernelVm.BytesStep | kernel-vm/src/lib.rs:245-286 | copying one more area keeps the bytes copied so far and the later sources intact |
| KernelVm.Cloneself | kernel-vm/src/lib.rs:245-286 | every cloned area is appended to the target, mapped at the same range with the same flags to fresh pages that hold a byte copy of the source pages; the target's other entries, every other byte of memory and the root's liveness are kept |
| KernelVm.OthersStep | kernel-vm/src/lib.rs:280-283 | mapping one clonable area changes no target entry outside the areas cloned so far |
| KernelVm.KeptStep | kernel-vm/src/lib.rs:268-278 | copying one clonable area writes no byte outside the new pages of the areas cloned so far |
| KernelVm.CopyArea | kernel-vm/src/lib.rs:268-278 | the pages are copied byte for byte and no other byte changes |
| ElfLoad.UnionIsAny | ch4/src/main.rs:275-295 | after the first pass each permission bit of a page is set exactly when some load segment covering it has that bit, and a page is recorded exactly when some segment covers it |
| ElfLoad.UnionOutside | ch4/src/main.rs:275-295 | a page no segment covers has no permission bits |
| ElfLoad.VpnRange | ch4/src/main.rs:285-288 | when the end sum does not overflow, the pages visited for a segment are exactly those that meet its memory range [vaddr, vaddr + memsz) |
| ElfLoad.VpnRangeWraps | ch4/src/main.rs:285-288 | when the end sum passes usize::MAX and wraps, at most the segment's first page is visited, whatever memsz says |
| ElfLoad.WrappedSegmentEmpty | ch4/src/main.rs:285-295 | a page-aligned load segment at page 1 whose memsz is usize::MAX wraps the end sum and covers no page at all |
| ElfLoad.CollectPageInfo | ch4/src/main.rs:275-295 | None exactly when a program header's type does not parse; otherwise the table holding, for each page in a segment's range (its end wrapped as usize arithmetic wraps), the union of the covering segments' permissions |
| ElfLoad.AddSegment | ch4/src/main.rs:278-294 | one load segment's permissions join every page it covers |
| ElfLoad.JoinPage | ch4/src/main.rs:289-293 | joining one page keeps the table correct one page further on |
| ElfLoad.JoinedAll | ch4/src/main.rs:278-294 | with every page of the segment joined, the table is the first pass's table over one more segment |
| ElfLoad.ChooseFlags | ch4/src/main.rs:343-350 | every page gets V, R and U; W and X exactly when the union has them; never G, A or D |
| ElfLoad.PageCopyAligned | ch4/src/main.rs:317-359 | the bytes copied to a page land at the page address plus the in-page offset, which is the segment address plus the segment offset, and fit both the page and the segment's file range |
| ElfLoad.Lookup | ch4/src/main.rs:316 | the page at a VPN exactly when it is mapped |
| ElfLoad.CopyIntoAt | ch4/src/main.rs:331-362 | a byte of the copy comes from the data inside the written range and from the old page outside it |
| ElfLoad.NewPageByte | ch4/src/main.rs:316-363 | a segment leaves its file bytes on the page, the previous contents elsewhere, and zero on a new page |
| ElfLoad.SegPagesAt | ch4/src/main.rs:315-364 | part way through a segment the pages handled so far are written and the others are as before |
| ElfLoad.SegStepFrame | ch4/src/main.rs:315-364 | a segment maps exactly the pages it covers and leaves the others as they were |
| ElfLoad.ExpectedOutside | ch4/src/main.rs:298-365 | an address on a page no segment covers holds zero in the reference image |
| ElfLoad.BuildKeys | ch4/src/main.rs:298-365 | the second pass maps exactly the covered pages |
| ElfLoad.BuildFlags | ch4/src/main.rs:338-350 | every mapped page carries the flags chosen from the union over all segments |
| ElfLoad.StepByte | ch4/src/main.rs:315-364 | after one segment a byte is that segment's file byte where its file range reaches, else what it was, else zero |
| ElfLoad.BuildBytes | ch4/src/main.rs:298-365 | every byte of the loaded image is the reference image's byte |
| ElfLoad.LoadedImage | ch4/src/main.rs:275-365 | the covered pages are mapped, each with W and X exactly when some covering segment has them, and every byte is that of the last segment whose file bytes reach it, else zero |
| ElfLoad.SegPagesStep | ch4/src/main.rs:315-364 | handling one more page writes that page and leaves the others |
| ElfLoad.MapSegmentPages | ch4/src/main.rs:298-364 | one segment's loop of the second pass as written: the result is the as-written fold over the segment's pages, None once a copy onto a read-only page fails the load, and the set of mapped pages tracks the image |
| ElfLoad.MapPagesFrom | ch4/src/main.rs:315-364 | the page loop over a segment that reaches at least one page gives the as-written fold, stopping at the first failure, with the set of mapped pages tracking the image |
| ElfLoad.MapPage | ch4/src/main.rs:316-363 | one page of the loop as written: a new page is mapped with the first pass's flags, a writable one is written over, and a copy onto a read-only one is skipped or fails the load, exactly as one more step of the as-written fold |
| ElfLoad.MapSegments | ch4/src/main.rs:297-365 | the second pass as written yields the as-written image, which is the reference image whenever no segment copies onto a read-only page (BuildAsWrittenAgrees) |
| ElfLoad.LoadSegments | ch4/src/main.rs:275-365 | None when a program header's type does not parse; otherwise the image of the second pass as written |
| ElfLoad.PageStepAsWritten | ch4/src/main.rs:316-337 | on a page already mapped without W, the `translate(.., "W")` fails and the segment's bytes are skipped (ch4, ch5) or the load fails (ch6, ch8); elsewhere it is the corrected step |
| ElfLoad.PageStepFrame | ch4/src/main.rs:316-363 | a successful as-written page step maps that page, keeps every other page, never changes the flags of a page already mapped, and gives a new page the flags passed in |
| ElfLoad.SegPagesAsWrittenAt | ch4/src/main.rs:315-364 | the skipping loop never fails; once it succeeds part way through a segment, the pages handled so far are mapped, the others are as before, old pages keep their flags and new ones have the first pass's flags |
| ElfLoad.SegPagesSkipping | ch4/src/main.rs:315-364 | with the skipping loader (ch4, ch5) a segment's loop never fails |
| ElfLoad.SegPagesKeys | ch4/src/main.rs:315-364 | a segment's loop that has not failed maps the pages handled so far and no others beyond those mapped before |
| ElfLoad.SegPagesKept | ch4/src/main.rs:315-364 | a segment's loop that has not failed leaves every page outside the handled ones exactly as it was |
| ElfLoad.SegPagesOldFlags | ch4/src/main.rs:316-337 | a page mapped before the segment keeps its flags: the copy onto it never re-maps it |
| ElfLoad.SegPagesNewFlags | ch4/src/main.rs:340-363 | a page the segment's loop maps anew has the first pass's flags for it |
| ElfLoad.SegPagesNoneStays | ch6/src/main.rs:519-534 | once the `?` has failed the load, the later pages of the segment do not undo the failure |
| ElfLoad.SegPagesAsWrittenNext | ch4/src/main.rs:316-363 | one more page of the loop is one as-written page step, with the first pass's flags for a new page |
| ElfLoad.SegPagesAgree | ch4/src/main.rs:315-364 | while no page handled so far takes a copy onto a read-only page, the segment's loop as written gives the corrected loop's image |
| ElfLoad.SegPagesFails | ch6/src/main.rs:519-534 | with the failing loader, a copy onto a read-only page makes the segment's loop return None |
| ElfLoad.SegPagesFailsAt | ch6/src/main.rs:519-534 | with the failing loader, the loop fails at the very page where a segment copies onto a page mapped without W |
| ElfLoad.BuildAsWrittenAgrees | ch4/src/main.rs:298-365 | without a read-only overlap the second pass as written is exactly the corrected pass, whichever loader |
| ElfLoad.BuildAsWrittenFails | ch6/src/main.rs:519-534 | with a read-only overlap the failing loader (ch6, ch8) returns None |
| ElfLoad.BuildAsWrittenPages | ch4/src/main.rs:298-365 | the skipping pass (ch4, ch5) always succeeds; a pass that succeeds maps exactly the covered pages, each with the first pass's flags |
| ElfLoad.BuildNoneStays | ch6/src/main.rs:519-534 | a load that has failed stays failed over the later segments |
| ElfLoad.SharedOverlap | ch4/src/main.rs:316-337 | the two-segment example has a read-only overlap: the second segment copies a byte onto page 0, which has no W |
| ElfLoad.SharedFirstNoOverlap | ch4/src/main.rs:316-337 | the first segment alone has no read-only overlap |
| ElfLoad.SharedAsWritten | ch4/src/main.rs:316-337 | the example's pass as written is the first segment's image followed by one as-written step of the second segment on page 0 |
| ElfLoad.SharedFirstPage | ch4/src/main.rs:340-363 | in the two-segment example, the first segment maps page 0 as a new page |
| ElfLoad.SharedFirstSegment | ch4/src/main.rs:340-363 | after the first segment page 0 is read-only and byte 8 is still zero |
| ElfLoad.SharedReadOnly | ch4/src/main.rs:343-350 | neither example segment asks for W, so page 0 lacks it |
| ElfLoad.SharedBothSegments | ch4/src/main.rs:298-365 | the corrected second pass puts the second segment's byte 7 at address 8 |
| ElfLoad.ReadOnlyOverlapDropped | ch4/src/main.rs:316-337 | the two-segment example copies onto a read-only page: as written, the skipping loader (ch4, ch5) leaves byte 8 zero and the failing one (ch6, ch8) refuses the file, while the corrected pass puts 7 there |
| ElfLoad.MapStack | ch4/src/main.rs:368-371 | the stack pages are mapped zeroed with VRWU and the rest kept; None exactly when a stack page is already mapped |
| Linker.Len | linker/src/lib.rs:69-74 | start plus the length is the end on an ordered layout, and the length is 0 otherwise |
| Linker.InitIsEmpty | linker/src/lib.rs:23-74 | the placeholder layout starts and ends at usize::MAX and has length 0 |
| Linker.Regions | linker/src/lib.rs:106-148 | four regions: text, rodata, data and boot, in that order |
| Linker.RegionsTile | linker/src/lib.rs:59-74 | the regions start at `start()`, each begins where the previous one ends, the last ends at `end()`, and on an ordered layout their sizes add up to `len()` (also lines 106-148) |
| Linker.KernelRegionIterator.constructor | linker/src/lib.rs:89-95 | the iterator starts at the first region |
| Linker.KernelRegionIterator.Next | linker/src/lib.rs:106-148 | the next region in order and one step on, or None and no change once all four are out |
| Linker.CollectRegions | linker/src/lib.rs:103-148 | running a fresh iterator to the end yields exactly the four regions in order |
| Linker.LowerHex | linker/src/lib.rs:157-170 | at least one digit |
| Linker.HexRoundTrip | linker/src/lib.rs:157-170 | the printed hex is digits only, starts with 0 exactly for 0, and reads back as the number |
| Linker.DisplayNamesTitle | linker/src/lib.rs:156-170 | two regions that print alike have the same title |
| Linker.ZeroFill | linker/src/lib.rs:82-85 | every byte of the range becomes 0 and no other byte changes (also lines 248-252) |
| Linker.ZeroBss | linker/src/lib.rs:76-86 | every byte of [sbss, ebss) becomes 0 and no other byte changes |
| Linker.AppSlice | linker/src/lib.rs:219-260 | the image's length is the gap between consecutive addresses; it lies at base + i * step when base is set, else where it was linked |
| Linker.AppIterator.constructor | linker/src/lib.rs:191-197 | the iterator starts at the first image over the given memory |
| Linker.AppIterator.Next | linker/src/lib.rs:208-262 | None and no change once `count` images are out; otherwise the next slice, after copying the image to its slot and zeroing the rest of the 2 MiB slot when a base is set, and no other memory change |
| Linker.LoadImage | linker/src/lib.rs:236-253 | the image bytes land at the slot, the rest of the slot is zero, and all other memory is as it was |
| Linker.CopyNonoverlapping | linker/src/lib.rs:240-241 | the destination holds the source bytes and nothing else changes |
| Linker.AppSlicesLayout | linker/src/lib.rs:174-262 | unmoved images follow one another; copied images in slots at least 2 MiB apart never overlap |
| Console.ConsoleOut.constructor | console/src/lib.rs:15-25 | a console starts with nothing written |
| Console.ConsoleOut.PutChar | console/src/lib.rs:17 | the byte is appended to the output |
| Console.ConsoleOut.PutStr | console/src/lib.rs:20-24 | the string's bytes are appended in order |
| Console.LowerByte | console/src/lib.rs:56-60 | upper-case ASCII letters move up by 32 and every other byte stays |
| Console.Lower | console/src/lib.rs:55-62 | the same length, each byte lowercased |
| Console.SetLogLevel | console/src/lib.rs:50-77 | the level installed is the one the lowercased 15-byte prefix names, Trace otherwise or without a setting |
| Console.LevelNames | console/src/lib.rs:64-70 | each level name, in any case, selects its level |
| Console.NeverOff | console/src/lib.rs:50-77 | no setting turns logging off |
| Console.LevelIgnoresCase | console/src/lib.rs:56-60 | lowercasing the setting first changes nothing |
| Console.LongSettingIsTrace | console/src/lib.rs:55-71 | a setting longer than 15 bytes is cut to 15 bytes, which name no level, so Trace |
| Console.Decimal | console/src/lib.rs:123-135 | 0 renders as "0" and a positive number as its digits |
| Console.DecimalRoundTrip | console/src/lib.rs:123-135 | the rendering is digits only, starts with 0 exactly for 0, and reads back as the number |
| Console.FillDigits | console/src/lib.rs:128-133 | the digits of a non-zero byte land right-aligned in the first three cells and the fourth is untouched |
| Console.FormatColorAsWritten | console/src/lib.rs:123-135 | for a non-zero n the returned text is the digits followed by the never-written fourth byte |
| Console.ColorTextHasNul | console/src/lib.rs:123-172 | from the zeroed buffer `log` passes, every non-zero colour comes out with a trailing NUL, so Error's colour is "31" and a zero byte |
| Console.FormatColor | console/src/lib.rs:123-135 | the returned text is exactly the decimal digits |
| Console.TwoDigits | console/src/lib.rs:128-133 | a number from 10 to 99 renders as its tens and units digits |
| Console.StylesDistinct | console/src/lib.rs:150-164 | every label is five bytes and every colour two digits, and both tell the levels apart |
| Console.LogLineFrame | console/src/lib.rs:166-185 | the line as written is 19 bytes longer than its message: ESC "[", the colour's two digits and a NUL, the message at byte 14, and the colour reset and newline at the end |
| Console.TailFrame | console/src/lib.rs:176-184 | after a five-byte label the tail is 14 bytes longer than the message, the message at byte 9 and the reset and newline after it |
| Console.LogLineIntendedFrame | console/src/lib.rs:166-185 | the corrected line has the message at byte 13 and the reset and newline after it, and the line as written is it with a NUL put in at byte 4 |
| Console.Log | console/src/lib.rs:145-186 | the console receives exactly the log line as written, its colour text from `format_color` on a zeroed buffer |
| Console.WriteFrame | console/src/lib.rs:171-184 | the `put_str` calls append exactly ESC "[", the colour text, "m[", the label, "] ", the message and the reset and newline |
| Console.ColourText | console/src/lib.rs:172-174 | the colour text `log` writes is `format_color` as written on a fresh zeroed buffer |
| SignalDefs.DefaultAction | signal-defs/src/lib.rs:11-17 | the default action has handler 0 and an empty mask |
| SignalDefs.TryFrom | signal-defs/src/lib.rs:19-90 | a byte names a signal exactly when it is below 64, and then the signal with that number |
| SignalDefs.From | signal-defs/src/lib.rs:95-106 | the low eight bits of the number give the signal when below 64, ERR otherwise |
| SignalDefs.FromTruncates | signal-defs/src/lib.rs:102-104 | only the low eight bits of the number matter |
| SignalDefs.FromSignal | signal-defs/src/lib.rs:95-106 | a signal's number converts back to the signal |
| SignalDefs.MaxSigIsSigsys | signal-defs/src/lib.rs:54-93 | MAX_SIG is SIGSYS, the real-time signals start just above it and end at 63 |
| SignalImpl.FromToBits | signal-impl/src/lib.rs:11 | reading back the k bits of a number below 2^k gives the number |
| SignalImpl.ToFromBits | signal-impl/src/lib.rs:11 | taking the bits of the number a bit sequence denotes gives the sequence |
| SignalImpl.FromBitsZero | signal-impl/src/lib.rs:44-46 | a bit sequence denotes zero exactly when no bit is set |
| SignalImpl.WordRoundTrip | signal-impl/src/lib.rs:11 | a usize read as a signal set and written back is unchanged, and the reverse |
| SignalImpl.Empty | signal-impl/src/lib.rs:73-80 | the empty set is the word 0 and contains no bit |
| SignalImpl.AddBit | signal-impl/src/lib.rs:15-19 | exactly the given bit joins the set; a bit of 64 or more changes nothing |
| SignalImpl.RemoveBit | signal-impl/src/lib.rs:22-26 | exactly the given bit leaves the set; a bit of 64 or more changes nothing |
| SignalImpl.Union | signal-impl/src/lib.rs:34-36 | a bit is in the union exactly when it is in either set |
| SignalImpl.Difference | signal-impl/src/lib.rs:39-41 | a bit is in the difference exactly when it is in the first set and not the second |
| SignalImpl.LowestFrom | signal-impl/src/lib.rs:49 | the lowest set bit at or above the start, 64 when there is none |
| SignalImpl.FindFirstOne | signal-impl/src/lib.rs:44-52 | None exactly when no bit is deliverable; otherwise the lowest deliverable bit |
| SignalImpl.ValidIndex | signal-impl/src/lib.rs:83-91 | an action-table index exactly for signals 1 to MAX_SIG, and then the signal's number |
| SignalImpl.SignalState.ActionAt | signal-impl/src/lib.rs:206 | the installed action, or the default one |
| SignalImpl.Initial | signal-impl/src/lib.rs:73-80 | nothing pending, masked, handled or installed |
| SignalImpl.Take | signal-impl/src/lib.rs:103-113 | the lowest deliverable bit leaves `received` and is returned when it numbers a traditional signal; nothing else changes, and nothing at all when no bit is deliverable |
| SignalImpl.Handle | signal-impl/src/lib.rs:185-223 | the state and context stay well formed |
| SignalImpl.KillFirst | signal-impl/src/lib.rs:187-190 | a pending unmasked SIGKILL is consumed and kills with -9 before anything else, the context untouched |
| SignalImpl.FrozenWaitsForCont | signal-impl/src/lib.rs:115-125 | while frozen only a pending unmasked SIGCONT resumes the process, consumed; otherwise nothing changes and the process stays suspended (also lines 192-194) |
| SignalImpl.BusyWhileHandling | signal-impl/src/lib.rs:192-196 | while a user handler runs no signal is delivered |
| SignalImpl.KillNeverTaken | signal-impl/src/lib.rs:187-203 | the SIGKILL arm of the delivery match is never reached |
| SignalImpl.Delivery | signal-impl/src/lib.rs:198-222 | the lowest deliverable signal is consumed and decides: SIGSTOP freezes; an installed handler runs with the context saved, pc at the handler and a0 the signal; SIGCHLD, SIGURG and SIGCONT are otherwise ignored; any other signal kills |
| SignalImpl.NothingToDeliver | signal-impl/src/lib.rs:198-200 | without a deliverable traditional signal the result is NoSignal, and a deliverable bit 0 or 32 to 63 is consumed on the way |
| SignalImpl.MaskedStaysPending | signal-impl/src/lib.rs:185-223 | a masked signal stays pending whatever happens |
| SignalImpl.HandlerThenReturn | signal-impl/src/lib.rs:209-241 | after a handler is entered, `sig_return` restores exactly the interrupted context and ends the handling |
| SignalImpl.HandledSavesContext | signal-impl/src/lib.rs:209-213 | Handled from a state handling nothing means the interrupted context was saved |
| SignalImpl.ReturnWithoutHandler | signal-impl/src/lib.rs:225-236 | with nothing handled or while frozen, `sig_return` changes nothing and answers false |
| SignalImpl.SignalImpl.constructor | signal-impl/src/lib.rs:73-80 | the initial state |
| SignalImpl.SignalImpl.TakeDeliverableSignal | signal-impl/src/lib.rs:103-113 | the state and result Take gives |
| SignalImpl.SignalImpl.HandleFrozen | signal-impl/src/lib.rs:115-125 | the state and result of thawing on SIGCONT or staying suspended |
| SignalImpl.SignalImpl.FromFork | signal-impl/src/lib.rs:134-141 | the child inherits the mask and actions with nothing pending or handled |
| SignalImpl.SignalImpl.Clear | signal-impl/src/lib.rs:143-148 | everything back to the initial state |
| SignalImpl.SignalImpl.AddSignal | signal-impl/src/lib.rs:150-154 | a traditional signal becomes pending and no other bit changes; ERR and 32 to 63 are ignored |
| SignalImpl.SignalImpl.IsHandling | signal-impl/src/lib.rs:156-158 | true exactly while a signal is being handled |
| SignalImpl.SignalImpl.GetActionRef | signal-impl/src/lib.rs:171-177 | None for SIGKILL, SIGSTOP and numbers without a slot; otherwise the installed action or the default |
| SignalImpl.SignalImpl.SetAction | signal-impl/src/lib.rs:160-169 | refused exactly for SIGKILL, SIGSTOP and numbers without a slot; otherwise the action is installed, read back by `get_action_ref`, and no other slot changes |
| SignalImpl.SignalImpl.UpdateMask | signal-impl/src/lib.rs:179-183 | the new mask is installed and the previous one returned |
| SignalImpl.SignalImpl.HandleSignals | signal-impl/src/lib.rs:185-223 | the state, context and result Handle gives |
| SignalImpl.SignalImpl.SigReturn | signal-impl/src/lib.rs:225-241 | leaving a handler restores the saved context and answers true; otherwise nothing changes and the answer is false |
| Sync.IntrInit | sync/src/lib.rs:47-52 | no open access, nothing saved, and the interrupt enable bit as the hardware has it |
| Sync.Push | sync/src/lib.rs:54-61 | one level deeper; the first level saves the enable bit and turns interrupts off, deeper levels change nothing else |
| Sync.Pop | sync/src/lib.rs:63-72 | underflow exactly at depth 0; otherwise one level up, and interrupts come back only when leaving the last level and they were on before the first push |
| Sync.PushPopRestores | sync/src/lib.rs:54-72 | a push followed by a pop restores the depth and the enable bit, and interrupts stay off while an access is open |
| Sync.NestedRestores | sync/src/lib.rs:54-72 | after k nested pushes and k pops from depth 0 the enable bit is what it was before the first push |
| Sync.PushN | sync/src/lib.rs:54-61 | k pushes add k levels |
| Sync.PopN | sync/src/lib.rs:63-72 | k pops succeed exactly when the depth is at least k |
| Sync.PushNShape | sync/src/lib.rs:54-61 | after k pushes from depth 0 the first enable bit is saved and interrupts are off |
| Sync.PopNShape | sync/src/lib.rs:63-72 | popping all k levels ends at depth 0 with the saved enable bit restored |
| Sync.IntrState.constructor | sync/src/lib.rs:47-52 | the initial interrupt state |
| Sync.IntrState.PushOff | sync/src/lib.rs:54-61 | the state Push gives |
| Sync.IntrState.PopOff | sync/src/lib.rs:63-72 | fails exactly on underflow, with nothing changed; otherwise the state Pop gives |
| Sync.UPIntrFreeCell.constructor | sync/src/lib.rs:83-87 | a new cell is not borrowed |
| Sync.UPIntrFreeCell.ExclusiveAccess | sync/src/lib.rs:89-98 | succeeds exactly when the cell was free, with one more level pushed; a second access pops again before failing, so the interrupt state is as before |
| Sync.UPIntrFreeCell.Release | sync/src/lib.rs:123-127 | dropping the guard pops one level and ends the borrow, or fails on underflow with nothing changed |
| Sync.MutexLock | sync/src/lib.rs:157-167 | acquired exactly when the mutex was free; the mutex is then locked, and a caller that did not get it is queued last |
| Sync.MutexUnlock | sync/src/lib.rs:169-181 | fails exactly on a free mutex; otherwise the oldest waiter inherits the locked mutex, or with nobody waiting it is freed |
| Sync.MutexInvKept | sync/src/lib.rs:157-181 | nobody ever waits on a free mutex |
| Sync.MutexFifo | sync/src/lib.rs:157-181 | threads that queue behind the holder are handed the mutex in arrival order, and the last unlock frees it |
| Sync.LockAll | sync/src/lib.rs:157-167 | a locked mutex stays locked |
| Sync.UnlockAll | sync/src/lib.rs:169-181 | one thread woken per waiter |
| Sync.LockAllQueues | sync/src/lib.rs:157-167 | on a locked mutex the callers queue in order |
| Sync.UnlockAllWakes | sync/src/lib.rs:169-181 | unlocking until free wakes the waiters in order and frees the mutex |
| Sync.MutexBlocking.constructor | sync/src/lib.rs:144-154 | free with nobody waiting |
| Sync.MutexBlocking.Lock | sync/src/lib.rs:157-167 | the state and answer MutexLock gives |
| Sync.MutexBlocking.Unlock | sync/src/lib.rs:169-181 | fails exactly on a free mutex with nothing changed; otherwise the state and woken thread MutexUnlock gives |
| Sync.SemNew | sync/src/lib.rs:227-236 | the count is the resources given and nobody waits |
| Sync.SemDown | sync/src/lib.rs:238-248 | one unit fewer; acquired exactly when the count stays non-negative, else the caller is queued last |
| Sync.SemUp | sync/src/lib.rs:250-255 | one unit more, and the oldest waiter is woken when there is one |
| Sync.SemInvKept | sync/src/lib.rs:238-255 | a negative count is always minus the number of waiters, and `up` wakes a thread exactly when the count was negative |
| Sync.DownUpWakes | sync/src/lib.rs:238-255 | a `down` that blocks is released by the next `up` |
| Sync.Semaphore.constructor | sync/src/lib.rs:227-236 | the state SemNew gives |
| Sync.Semaphore.Down | sync/src/lib.rs:238-248 | the state and answer SemDown gives |
| Sync.Semaphore.Up | sync/src/lib.rs:250-255 | the state and woken thread SemUp gives |
| Sync.CondWait | sync/src/lib.rs:206-215 | succeeds exactly on a locked mutex with a waiter, and the first waiter is the one woken |
| Sync.WaitWithMutexQueues | sync/src/lib.rs:206-215 | since `unlock` hands the mutex to the woken waiter, the caller's `lock` always queues and the first component returned is always false |
| Sync.Condvar.constructor | sync/src/lib.rs:189-193 | nobody waits |
| Sync.Condvar.Signal | sync/src/lib.rs:195-198 | the oldest waiter leaves and is returned, or None with nobody waiting |
| Sync.Condvar.WaitNoSched | sync/src/lib.rs:200-204 | the caller is queued last and told to block |
| Sync.Condvar.WaitWithMutex | sync/src/lib.rs:206-215 | fails exactly where CondWait does; otherwise its state, answer and woken thread, with the condvar's own queue untouched |
| Syscall.FromUsize | syscall/src/lib.rs:21-25 | the id carries the number unchanged |
| Syscall.FromUsizeInjective | syscall/src/lib.rs:18-25 | two numbers give the same id exactly when they are equal |
| Syscall.UnitsDenote | syscall/src/lib.rs:50-54 | the unit constants denote zero, a second, a millisecond, a microsecond and a nanosecond, each normalised |
| Syscall.FromMillsecond | syscall/src/lib.rs:57-62 | the same duration as the milliseconds given, normalised |
| Syscall.AddDenotes | syscall/src/lib.rs:65-80 | the sum exists exactly when its fields fit a usize, and then denotes the sum of the durations and is normalised |
| Syscall.AddCommutes | syscall/src/lib.rs:65-80 | the order of the operands does not matter |
| Syscall.LessIsShorter | syscall/src/lib.rs:43 | on normalised values the derived order is the order of the durations and equality is equal duration |
| Syscall.LessNeedsNormal | syscall/src/lib.rs:43 | on values that are not normalised the derived order and the durations disagree |
| SyscallKernel.AsU8 | syscall/src/kernel.rs:216-221 | the low eight bits of the word |
| SyscallKernel.AsU32 | syscall/src/kernel.rs:148-153 | the low 32 bits of the word |
| SyscallKernel.Route | syscall/src/kernel.rs:131-320 | a handler method is reached exactly for the listed numbers, with the argument words converted as each arm does |
| SyscallKernel.UnroutedMethods | syscall/src/kernel.rs:131-320 | no number reaches the memory handler, `wait`, or the semaphore `up`/`down` methods |
| SyscallKernel.UnlistedNumbers | syscall/src/kernel.rs:131-320 | `exit_group`, `waitid`, `semget` and `semctl` are not listed, while `clone` is |
| SyscallKernel.Register | syscall/src/kernel.rs:91-128 | the category gets the handler unless it already has one, and no other category changes |
| SyscallKernel.RegisterFirstWins | syscall/src/kernel.rs:91-128 | later registrations for a category change nothing |
| SyscallKernel.RegisterAll | syscall/src/kernel.rs:91-128 | registrations add only their category |
| SyscallKernel.Handle | syscall/src/kernel.rs:131-320 | Unsupported with the id exactly for an unlisted number or an unregistered category; otherwise Done with the registered handler's answer |
| SyscallKernel.NothingRegistered | syscall/src/kernel.rs:81-88 | with no handler registered every syscall is unsupported (also lines 131-320) |
| SyscallKernel.Registry.constructor | syscall/src/kernel.rs:81-88 | nothing is registered |
| SyscallKernel.Registry.Init | syscall/src/kernel.rs:91-128 | the handlers Register gives |

## Left out

General:

- The context switch, the portal code and the trap entry are hand-written assembly. So are `sret`, `satp` writes and TLB flushes. A switch is modelled by the context values it hands back (`Launch`, `Restore`); satp is a parameter.
- SBI calls are not modelled: console output, the timer (`set_timer`, `time::read`) and shutdown. Neither is the block device driver; the device is a sequence of 512-byte blocks.
- Concurrency is not modelled: `Mutex`, `Arc`, `UPIntrFreeCell`, interrupts during kernel code, and multiple harts. Each operation runs alone.
- `Arc` sharing is not modelled. File handles, processes and page images are values or single objects, so aliasing between several holders is not captured. `duplicate_file_handle` is omitted for the same reason.
- Page tables are maps from virtual page numbers to pages. The Sv39 walk, the PTE bit encoding, physical frame allocation and sign extension of virtual addresses (`VAddr`) are left out. So is the portal's `copy_leaf_pte_from` in the loaders.
- Syscall handlers that call into the kernel (`read`/`write` on files and streams, `clock_gettime`, `sched_yield`) take the kernel's answer as a parameter. The model covers the dispatch and result handling, not the effect.
- The ch8 `fork` (ch8/src/main.rs:1087-1134) and `clock_gettime` (ch8/src/main.rs:1471) are left out. Their ch5/ch6 counterparts are modelled.
- The ch8 semaphore, mutex and condvar syscalls (ch8/src/main.rs:1291-1460) are left out, along with the per-process lists of sync objects that back them. The primitives themselves are in the Sync module.
- ch8 `gettid` is left out: it only reads the running thread id. `sigprocmask` and `sigreturn` are left out as syscalls; they are thin wrappers over `SignalImpl.SignalImpl.UpdateMask` and `SignalImpl.SignalImpl.SigReturn`.
- The ch4 syscall host answers -1 to `exec`, `wait`, `waitpid` and the other process calls (ch4/src/main.rs:597-616). These stubs are not modelled separately; they are the Done(-1) answers of the dispatch.
- Writes into user memory are returned as values rather than performed. For example, `Ch5.Waitpid` returns the exit-code store it would make, and the user address space is not changed.
- Kernel-context offset arithmetic (`MultislotPortal` sizes, transit addresses) is over unbounded naturals, with no usize overflow.
- `PROCESSOR` is always present. A missing processor (a `None` lock) is not modelled.
- An exit code equal to isize::MIN is the same word as the blocking sentinel, and the model reads it as blocked, as the source does.
- ch8 thread stacks: the stack slot number `slot + 1` is not wrapped, and a reused slot whose pages are still mapped yields None, not a re-mapping.

Contracts narrower than the source:

- EfsReadWrite.ReadAt: requires `offset + len < 2^64`; usize overflow of the range end is not modelled.
- EfsReadWrite.WriteAt: requires `offset + |buf| < 2^64`, and `offset <= size`. The source panics on the latter (`assert!(start <= end)`, easy-fs/src/layout.rs:453).
- VfsInode.WriteAtNode: requires `offset + |buf|` within the largest file size. The truncating `as u32` of the new size (easy-fs/src/vfs.rs:236) is excluded.
- VfsInode.IncreaseInode: requires the new size within the largest file size and enough free data blocks. The source panics (`unwrap`) when allocation runs out.
- Efs.AllocData: requires a free bit and the data area within u32. The source's `unwrap()` panics on a full bitmap.
- Efs.AllocInode: requires a free bit. The source's `unwrap()` panics on a full bitmap.
- Efs.Open: requires a valid super block whose regions fit the device. The source asserts validity (easy-fs/src/efs.rs:152).
- VfsDir.FindInodeId: requires a directory inode. The source asserts it (easy-fs/src/vfs.rs:79).
- VfsDir.Create: requires a name of at most 28 bytes. `DirEntry::new` panics on a longer slice (easy-fs/src/layout.rs:510).
- EfsLayout.NameAsWritten: the `from_utf8(..).unwrap()` panic on a name that is not UTF-8 is not modelled; the bytes are returned.
- BlockCache.BlockCacheManager.GetBlockCache: returns None where the source panics with all 16 entries held (easy-fs/src/block_cache.rs:145).
- The easy-fs and VFS layers read and write `Disk.blocks` directly, not through `BlockCacheManager`. Caching and write-back are modelled on their own, not composed with the file system.
- EfsBitmap.Dealloc: requires the bit to be set. The source asserts it (easy-fs/src/layout.rs:135).
- EfsClear.ClearSize: requires the inode's block count within the direct, indirect and double-indirect capacity. A larger size cannot be written by the model's `increase_size`.
- TaskManage.PThreadManager.MakeCurrentExited: requires the running thread to have a process with a relation record. The source's `expect` panics otherwise.
- Sync.SemNew: the count is an unbounded natural. The `res_count as isize` cast is not modelled.
- VfsBuffer.UserBufferIterator.constructor: requires every slice to be non-empty. The source indexes an empty slice and panics (easy-fs/src/vfs.rs:313).
- ChapterShared.WaitpidOutcomes: stated for child pids other than usize::MAX - 1, the pid the source's -2 return would alias.
- Ch4.LoadElf: returns None where the source panics on a stack page that a segment already mapped.
- Ch4.LoadedProcess: when a segment writes onto a page an earlier segment mapped without W, ch4's loader skips those bytes; the contract then gives the image's pages and permissions but not its bytes (ElfLoad.ReadOnlyOverlapDropped shows one such image).
- ElfLoad.LoadSegments: requires every segment's file range to lie inside the file (FileFits). The source's `elf_data[..]` slice panics otherwise; the same requires is on ElfLoad.MapSegments and the chapter loaders.
- Syscall.Add: returns None when a field of the sum overflows a usize. The source's `+` panics there in a debug build and wraps in a release build.
- VfsHandle.FileHandle.Write: requires every slice, empty ones included, to start below the largest file size. The source's `write_at` looks up the block at the start before checking the length, and panics past the doubly indirect block.
- ElfLoad.VpnEnd: a segment's page range ends at `(vaddr + memsz + PAGE_SIZE - 1) >> 12` with the sum wrapped modulo 2^64, as in a release build (ElfLoad.VpnRangeWraps: the range is then at most the first page). A debug build panics on that overflow, and the panic is not modelled. This affects ElfLoad.CollectPageInfo, ElfLoad.MapSegments, ElfLoad.LoadSegments, Ch4.LoadElf, Ch4.LoadedProcess, Ch6.FromElfLayout, Ch8.LoadWithMainStack and Ch8.FromElf.
- ElfLoad.MapSegments: its page ranges wrap as ElfLoad.VpnEnd says; the debug-build panic on `vaddr + memsz + PAGE_SIZE - 1` (ch4/src/main.rs:310, ch6/src/main.rs:512, ch8/src/main.rs:544) is not modelled.
- Efs.Create: requires GeometryFits and at least one inode-bitmap block. This excludes three cases of easy-fs/src/efs.rs:58-68. The first is a device smaller than its inode regions, where `total_blocks - inode_total_blocks` underflows. The second is a geometry whose u32 products or sums overflow, which wrap in a release build and panic in a debug build. The third is a zero-block inode bitmap, where the root's `alloc_inode().unwrap()` panics.
- Ch5.AppNameAt: returns None past the end of the name table, where the source would read past it.
- ChapterFd.Open: the directory entries are a parameter. A created file does not update the directory here; `VfsDir.Create` models that step.
- ChapterShared.FillCache: ch4 and ch5 pass `a(1)` as an extra argument to `cache.init` (ch4/src/main.rs:486-493). The crate's `init` takes no such argument, so the model fills the cache from satp, pc, a0 and the two flags only.

## Findings

| source | as written | input that shows it | evidently intended | confidence | as-written member | corrected member |
|---|---|---|---|---|---|---|
| easy-fs/src/efs.rs:224-227 | `alloc_data` adds the bit index from the data bitmap to the data-area start with no bound. The data bitmap has `4096 * blocks` bits, which can exceed the data area. | A 1028-block device with one inode-bitmap block: the data area is block 1027 alone. The second `alloc_data` returns block 1028, past the device. | Only bits that name a block inside the data area are handed out. | not executed | Efs.AllocPastDevice (with Efs.SmallGeometry, Efs.AllocTwo) | Efs.AllocDataInArea |
| easy-fs/src/layout.rs:540-543 | `DirEntry::name` reads up to the first NUL, or the first 27 bytes when there is none. `DirEntry::new` accepts 28 bytes. | A NUL-free 28-byte name is stored by `create`. It is read back 27 bytes long, `find` misses it, and `readdir` lists it short. | The whole 28-byte field is the name when it has no NUL. | not executed | EfsLayout.NameAsWritten (with EfsLayout.NameAsWrittenTruncates, VfsDir.CreateLongNameMisses) | EfsLayout.Name (with EfsLayout.NameRoundTrip) |
| ch4/src/main.rs:316-337 | The second loading pass copies a segment's bytes through `translate(.., "W")`. On a page that an earlier segment mapped without W, ch4 and ch5 skip the bytes, and ch6 and ch8 fail the load (ch6/src/main.rs:519-534). The chapter loaders of the model follow this pass. | Two read-only segments share page 0: byte 0 comes from the first, byte 8 from the second, whose file byte is 7. | Each segment's file bytes land on its pages whatever the page's final permissions. | not executed | ElfLoad.PageStepAsWritten (with ElfLoad.ReadOnlyOverlapDropped, ElfLoad.BuildAsWrittenFails) | ElfLoad.LoadedImage (with ElfLoad.SharedBothSegments, ElfLoad.BuildAsWrittenAgrees) |
| ch5/src/main.rs:857-859 | On a breakpoint the loop only moves the pc past `ebreak`. It neither suspends nor re-queues the process. | A process that executes `ebreak` stays stored but is never fetched again. With nothing else queued, the kernel ends while it is alive. | The process is suspended back onto the ready queue, as with a timer interrupt. | not executed | Ch5.DisposalAsWritten (with Ch5.Stranded) | Ch5.TrapDisposal (with Ch5.Requeued) |
| ch5/src/main.rs:758-760 | The pid counter starts at 0, and initproc is added under pid 0. A fork takes the counter's next value. | The first fork from initproc gets pid 0. The child replaces initproc in the store, and initproc becomes its own child. | A child pid is never 0, as ch6 ensures by drawing again (ch6/src/main.rs:685-692). | not executed | Ch5.ForkAsWritten (with Ch5.FirstForkCollides) | Ch5.Fork |
| ch8/src/main.rs:1261-1288 | `waittid` treats an exit code of -2 as "still running". | A thread exits with code -2. `waittid` consumes its exit record and parks the caller as a waiter. The thread is already gone, so no exit ever wakes the caller. | An exited thread is reported with its code, whatever the value. | not executed | Ch8.SysWaittidAsWritten (with Ch8.ExitedMinusTwoParks) | Ch8.SysWaittid (with Ch8.ThreadWaitCases) |
| console/src/lib.rs:123-135 | `format_color` fills the 4-byte buffer from the end of its digits and returns `buf[3 - i..]`, which includes `buf[3]`. That byte is never written; the model's `Log` prints this text. | `log` passes a zeroed buffer. Error's colour 31 comes out as "31" followed by a zero byte inside the escape sequence. | The slice ends before `buf[3]` and holds only the digits. | not executed | Console.FormatColorAsWritten (with Console.ColorTextHasNul, Console.LogLineFrame) | Console.FormatColor (with Console.LogLineIntendedFrame) |
