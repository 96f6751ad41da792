/**
 * The per-process file-descriptor table of the ch6 and ch8 kernels, and the
 * decision their `FileSystem::open` makes on the root directory of the
 * easy-fs image.
 *
 * A table slot holds a file handle or is empty; descriptors 0, 1 and 2 are
 * the standard streams the table starts with. Handles are values here: the
 * `Arc<Mutex<..>>` sharing between a table and other holders is not part of
 * this model.
 */
module ChapterFd {
  import opened Words
  import opened Wrappers
  import opened EfsLayout
  import opened VfsDir
  import opened VfsHandle

  /** Descriptors below this are the standard streams, never handed out again by `alloc_fd`. */
  const FIRST_FREE_FD: nat := 3

  /** The lowest empty slot at index i or above. */
  function FirstEmpty<F>(table: seq<Option<F>>, i: nat): (r: Option<nat>)
    ensures r.Some? ==> i <= r.value < |table| && table[r.value].None?
    ensures r.Some? ==> forall j :: i <= j < r.value ==> table[j].Some?
    ensures r.None? ==> forall j :: i <= j < |table| ==> table[j].Some?
    decreases |table| - i
  {
    if i >= |table| then None
    else if table[i].None? then Some(i)
    else FirstEmpty(table, i + 1)
  }

  /**
   * `alloc_fd` on a table value: the lowest empty slot from 3 up takes the
   * file, or the file is appended; the descriptor is where it went.
   */
  function Allocated<F>(table: seq<Option<F>>, file: F): (r: (seq<Option<F>>, nat))
  {
    match FirstEmpty(table, FIRST_FREE_FD)
    case Some(fd) => (table[fd := Some(file)], fd)
    case None => (table + [Some(file)], |table|)
  }

  /** `close_fd` on a table value: -1 for a descriptor out of range or already empty, else 0 and the slot emptied. */
  function Closed<F>(table: seq<Option<F>>, fd: nat): (r: (seq<Option<F>>, isize))
    ensures r.1 == -1 <==> fd >= |table| || table[fd].None?
    ensures r.1 == -1 ==> r.0 == table
    ensures r.1 != -1 ==> r.1 == 0 && r.0 == table[fd := None]
  {
    if fd >= |table| || table[fd].None? then (table, -1) else (table[fd := None], 0)
  }

  /** `get_fd`: the handle in the slot, None for an empty or missing one. */
  function Get<F>(table: seq<Option<F>>, fd: nat): (r: Option<F>)
    ensures fd < |table| ==> r == table[fd]
    ensures fd >= |table| ==> r.None?
  {
    if fd < |table| then table[fd] else None
  }

  /**
   * What `alloc_fd` promises: the descriptor it returns holds the new file,
   * every other descriptor reads as before, the table grows only when no
   * slot from 3 up was free, and a reused slot is the lowest free one.
   */
  lemma AllocatedHolds<F>(table: seq<Option<F>>, file: F)
    requires |table| >= FIRST_FREE_FD
    ensures var (t, fd) := Allocated(table, file);
      && fd >= FIRST_FREE_FD && Get(t, fd) == Some(file)
      && (forall other :: other != fd ==> Get(t, other) == Get(table, other))
      && (|t| == |table| + 1 <==> forall j :: FIRST_FREE_FD <= j < |table| ==> table[j].Some?)
      && (|t| == |table| ==> Get(table, fd).None? && forall j :: FIRST_FREE_FD <= j < fd ==> table[j].Some?)
  {
  }

  /**
   * Closing the descriptor just allocated succeeds, and the next allocation
   * reuses it: descriptors are recycled lowest-first.
   */
  lemma {:induction false} CloseThenReuse<F>(table: seq<Option<F>>, file: F, next: F)
    requires |table| >= FIRST_FREE_FD
    ensures var (t, fd) := Allocated(table, file);
      var (c, r) := Closed(t, fd);
      r == 0 && Allocated(c, next).1 == fd
  {
    var (t, fd) := Allocated(table, file);
    var c := t[fd := None];
    assert forall j :: FIRST_FREE_FD <= j < fd ==> c[j].Some? by {
      forall j | FIRST_FREE_FD <= j < fd
        ensures c[j].Some?
      {
        if fd < |table| {
          assert c[j] == table[j];
        } else {
          assert c[j] == table[j];
        }
      }
    }
    FirstEmptyAt(c, FIRST_FREE_FD, fd);
  }

  /** A slot that is empty with every slot from i up to it taken is the one FirstEmpty finds. */
  lemma {:induction false} FirstEmptyAt<F>(table: seq<Option<F>>, i: nat, k: nat)
    requires i <= k < |table| && table[k].None? && forall j :: i <= j < k ==> table[j].Some?
    ensures FirstEmpty(table, i) == Some(k)
    decreases k - i
  {
    if i < k {
      FirstEmptyAt(table, i + 1, k);
    }
  }

  /**
   * The table of a process: `fd_table`. The methods are the loops and
   * updates of `alloc_fd` and `close_fd`.
   */
  class FdTable<F> {
    var table: seq<Option<F>>

    /** `new_stdio_fd_table`: stdin, stdout and the debug stream. */
    constructor Stdio(stdin: F, stdout: F, stddebug: F)
      ensures table == [Some(stdin), Some(stdout), Some(stddebug)]
    {
      table := [Some(stdin), Some(stdout), Some(stddebug)];
    }

    /** `clone_fd_table` for `fork`: the child starts with a copy of every slot. */
    constructor Clone(from: FdTable<F>)
      ensures table == from.table
    {
      table := from.table;
    }

    /** `alloc_fd`: scans from 3 for an empty slot, and appends when there is none. */
    method AllocFd(file: F) returns (fd: nat)
      modifies this
      ensures (table, fd) == Allocated(old(table), file)
    {
      var i := FIRST_FREE_FD;
      while i < |table|
        invariant FIRST_FREE_FD <= i
        invariant FirstEmpty(table, i) == FirstEmpty(table, FIRST_FREE_FD)
        decreases |table| - i
      {
        if table[i].None? {
          table := table[i := Some(file)];
          return i;
        }
        i := i + 1;
      }
      table := table + [Some(file)];
      fd := |table| - 1;
    }

    /** `close_fd`. */
    method CloseFd(fd: usize) returns (r: isize)
      modifies this
      ensures (table, r) == Closed(old(table), fd)
    {
      if fd >= |table| {
        return -1;
      }
      if table[fd].None? {
        return -1;
      }
      table := table[fd := None];
      r := 0;
    }
  }

  /** The paths `open` reads as the root directory itself: "/", "." and "". */
  predicate IsRootPath(path: seq<u8>) {
    path == [47] || path == [46] || path == []
  }

  /** The inode `open` hands out: the root directory, an inode found by name, or one it creates. */
  datatype Target = Root | Existing(id: u32) | Created

  /** The handle `open` returns: what it names, whether it was cleared first, and its access modes. */
  datatype Opened = Opened(target: Target, cleared: bool, readable: bool, writable: bool)

  /**
   * `FileSystem::open(path, flags)` on the root directory whose entries
   * are `es`. The root paths open the root itself. With CREATE, an existing
   * file is cleared and opened, and a missing one is created. Without it,
   * the file must exist, and TRUNC clears it. Every handle gets the access
   * modes `read_write` reads from the flags.
   */
  function Open(path: seq<u8>, flags: bv32, es: seq<DirEntry>): (r: Option<Opened>)
  {
    var (readable, writable) := ReadWrite(flags);
    if IsRootPath(path) then Some(Opened(Root, false, readable, writable))
    else if flags & CREATE != 0 then
      match Lookup(es, path)
      case Some(id) => Some(Opened(Existing(id), true, readable, writable))
      case None => Some(Opened(Created, false, readable, writable))
    else
      match Lookup(es, path)
      case Some(id) => Some(Opened(Existing(id), flags & TRUNC != 0, readable, writable))
      case None => None
  }

  /**
   * The cases of `open`: it fails only for a missing file without CREATE;
   * CREATE never names a missing file and always leaves the file empty;
   * otherwise the file found by name is opened, cleared exactly under TRUNC.
   */
  lemma OpenCases(path: seq<u8>, flags: bv32, es: seq<DirEntry>)
    ensures Open(path, flags, es).None? <==> !IsRootPath(path) && flags & CREATE == 0 && Lookup(es, path).None?
    ensures Open(path, flags, es).Some? ==>
      var o := Open(path, flags, es).value;
      && (o.readable, o.writable) == ReadWrite(flags)
      && (o.target == Root <==> IsRootPath(path))
      && (o.target == Created <==> !IsRootPath(path) && flags & CREATE != 0 && Lookup(es, path).None?)
      && (o.target.Existing? ==> Lookup(es, path) == Some(o.target.id))
      && (!IsRootPath(path) && flags & CREATE != 0 ==> o.cleared || o.target == Created)
      && (!IsRootPath(path) && flags & CREATE == 0 ==> (o.cleared <==> flags & TRUNC != 0))
  {
  }

  /**
   * A file opened with CREATE, once created under inode `id`, is what a
   * later plain open of the same (findable) name reaches; other names are
   * not affected.
   */
  lemma CreateThenOpen(path: seq<u8>, flags: bv32, es: seq<DirEntry>, id: u32, later: bv32, other: seq<u8>)
    requires !IsRootPath(path) && flags & CREATE != 0 && Findable(path)
    requires Open(path, flags, es) == Some(Opened(Created, false, ReadWrite(flags).0, ReadWrite(flags).1))
    requires other != path
    ensures Open(path, later, es + [NewEntry(path, id)]).Some?
    ensures Open(path, later, es + [NewEntry(path, id)]).value.target == Existing(id)
    ensures Open(other, later, es + [NewEntry(path, id)]) == Open(other, later, es)
  {
    CreateThenFind(es, path, id);
    CreateKeepsOthers(es, path, id, other);
  }

  /**
   * The `open` syscall of ch6 and ch8, with `table` the running process's
   * descriptor table (None with nothing running) and `flags` the raw word,
   * whose undefined bits are dropped: -1 when the path cannot be read from
   * user memory, when `open` on the root directory fails, or with nothing
   * running; otherwise the handle goes to the lowest free descriptor from
   * 3 up, which is returned.
   */
  method SysOpen<H>(table: Option<FdTable<H>>, path: Option<seq<u8>>, flags: bv32, es: seq<DirEntry>, handle: Opened -> H)
    returns (r: isize)
    modifies if table.Some? then {table.value} else {}
    ensures path.None? || Open(path.value, FromBitsTruncate(flags), es).None? || table.None? ==> r == -1
    ensures path.Some? && Open(path.value, FromBitsTruncate(flags), es).Some? && table.Some? ==>
      var (t, fd) := Allocated(old(table.value.table), handle(Open(path.value, FromBitsTruncate(flags), es).value));
      table.value.table == t && r == AsIsize(fd % USIZE_LIMIT)
  {
    if path.None? {
      return -1;
    }
    var o := Open(path.value, FromBitsTruncate(flags), es);
    if o.None? || table.None? {
      return -1;
    }
    var fd := table.value.AllocFd(handle(o.value));
    r := AsIsize(fd % USIZE_LIMIT);
  }

  /** The `close` syscall of ch6 and ch8: -1 with nothing running, else `close_fd`. */
  method SysClose<H>(table: Option<FdTable<H>>, fd: usize) returns (r: isize)
    modifies if table.Some? then {table.value} else {}
    ensures table.None? ==> r == -1
    ensures table.Some? ==> (table.value.table, r) == Closed(old(table.value.table), fd)
  {
    if table.None? {
      return -1;
    }
    r := table.value.CloseFd(fd);
  }
}
