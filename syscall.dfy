/**
 * The syscall crate's shared definitions: the syscall number wrapper and the
 * number table, clock ids, the standard file descriptors, and `TimeSpec`
 * with its construction from milliseconds, addition and ordering.
 */
module Syscall {
  import opened Words
  import opened Wrappers

  /** `SyscallId(pub usize)`. */
  datatype SyscallId = SyscallId(v: usize)

  /** `From<usize> for SyscallId`: wraps the number unchanged. */
  function FromUsize(value: usize): (id: SyscallId)
    ensures id.v == value
  {
    SyscallId(value)
  }

  /** Distinct numbers give distinct ids. */
  lemma FromUsizeInjective(a: usize, b: usize)
    ensures FromUsize(a) == FromUsize(b) <==> a == b
  {
  }

  // The generated number table.
  const READ: usize := 63
  const WRITE: usize := 64
  const OPEN: usize := 56
  const CLOSE: usize := 57
  const EXIT: usize := 93
  const EXIT_GROUP: usize := 94
  const FORK: usize := 220
  const EXECVE: usize := 221
  const WAIT4: usize := 260
  const WAITID: usize := 281
  const GETPID: usize := 172
  const GETTID: usize := 178
  const KILL: usize := 129
  const SIGACTION: usize := 134
  const SIGPROCMASK: usize := 135
  const RT_SIGRETURN: usize := 139
  const SCHED_YIELD: usize := 124
  const CLOCK_GETTIME: usize := 113
  /** Shares its number with FORK, so a match on ids sees FORK first. */
  const CLONE: usize := 220
  const SEMOP: usize := 65
  const SEMGET: usize := 66
  const SEMCTL: usize := 67
  const MUTEX_CREATE: usize := 400
  const MUTEX_LOCK: usize := 401
  const MUTEX_UNLOCK: usize := 402
  const CONDVAR_CREATE: usize := 403
  const CONDVAR_SIGNAL: usize := 404
  const CONDVAR_WAIT: usize := 405
  const THREAD_CREATE: usize := 406
  const WAITTID: usize := 407

  /** `ClockId(pub usize)` and its four named values. */
  datatype ClockId = ClockId(v: usize)
  const CLOCK_REALTIME: ClockId := ClockId(0)
  const CLOCK_MONOTONIC: ClockId := ClockId(1)
  const CLOCK_PROCESS_CPUTIME_ID: ClockId := ClockId(2)
  const CLOCK_THREAD_CPUTIME_ID: ClockId := ClockId(3)

  // Standard file descriptors.
  const STDIN: usize := 0
  const STDOUT: usize := 1
  const STDDEBUG: usize := 2

  const NANOS_PER_SEC: nat := 1_000_000_000
  const NANOS_PER_MILLI: nat := 1_000_000

  /** `TimeSpec { tv_sec, tv_nsec }`. */
  datatype TimeSpec = TimeSpec(tvSec: usize, tvNsec: usize)

  const ZERO: TimeSpec := TimeSpec(0, 0)
  const SECOND: TimeSpec := TimeSpec(1, 0)
  const MILLSECOND: TimeSpec := TimeSpec(0, 1_000_000)
  const MICROSECOND: TimeSpec := TimeSpec(0, 1_000)
  const NANOSECOND: TimeSpec := TimeSpec(0, 1)

  /** The duration a `TimeSpec` denotes, in nanoseconds. */
  function Nanos(t: TimeSpec): nat {
    t.tvSec * NANOS_PER_SEC + t.tvNsec
  }

  /** The nanosecond field is below one second. */
  predicate Normal(t: TimeSpec) {
    t.tvNsec < NANOS_PER_SEC
  }

  /** The unit constants denote what their names say. */
  lemma UnitsDenote()
    ensures Nanos(ZERO) == 0 && Nanos(SECOND) == NANOS_PER_SEC
    ensures Nanos(MILLSECOND) == NANOS_PER_MILLI && Nanos(MICROSECOND) == 1_000 && Nanos(NANOSECOND) == 1
    ensures Normal(ZERO) && Normal(SECOND) && Normal(MILLSECOND) && Normal(MICROSECOND) && Normal(NANOSECOND)
  {
  }

  /**
   * `from_millsecond(ms)`: the same duration, normalised. The product never
   * leaves usize since the remainder is below 1000.
   */
  function FromMillsecond(ms: usize): (t: TimeSpec)
    ensures Nanos(t) == ms * NANOS_PER_MILLI
    ensures Normal(t)
  {
    TimeSpec(ms / 1000, (ms % 1000) * NANOS_PER_MILLI)
  }

  /**
   * `self + other`. None when one of its usize additions overflows (the
   * panic of a build with overflow checks).
   */
  function Add(a: TimeSpec, b: TimeSpec): (r: Option<TimeSpec>)
  {
    var sec := a.tvSec + b.tvSec;
    var nsec := a.tvNsec + b.tvNsec;
    if sec >= USIZE_LIMIT || nsec >= USIZE_LIMIT then None
    else if nsec >= NANOS_PER_SEC then
      var sec' := sec + nsec / NANOS_PER_SEC;
      if sec' >= USIZE_LIMIT then None else Some(TimeSpec(sec', nsec % NANOS_PER_SEC))
    else Some(TimeSpec(sec, nsec))
  }

  /**
   * The sum denotes the sum of the durations and is always normalised, even
   * when the operands are not; it exists exactly when the field sums and the
   * carried seconds fit in usize.
   */
  lemma AddDenotes(a: TimeSpec, b: TimeSpec)
    ensures Add(a, b).Some? <==>
      a.tvNsec + b.tvNsec < USIZE_LIMIT &&
      a.tvSec + b.tvSec + (a.tvNsec + b.tvNsec) / NANOS_PER_SEC < USIZE_LIMIT
    ensures Add(a, b).Some? ==> Nanos(Add(a, b).value) == Nanos(a) + Nanos(b)
    ensures Add(a, b).Some? ==> Normal(Add(a, b).value)
  {
    var n := a.tvNsec + b.tvNsec;
    if n < NANOS_PER_SEC {
      assert n / NANOS_PER_SEC == 0;
    } else if Add(a, b).Some? {
      var r := Add(a, b).value;
      assert n == (n / NANOS_PER_SEC) * NANOS_PER_SEC + n % NANOS_PER_SEC;
      assert Nanos(r) == (a.tvSec + b.tvSec) * NANOS_PER_SEC + (n / NANOS_PER_SEC) * NANOS_PER_SEC + n % NANOS_PER_SEC;
    }
  }

  /** Addition is commutative. */
  lemma AddCommutes(a: TimeSpec, b: TimeSpec)
    ensures Add(a, b) == Add(b, a)
  {
  }

  /** The derived `PartialOrd`: lexicographic on (tv_sec, tv_nsec). */
  predicate Less(a: TimeSpec, b: TimeSpec) {
    a.tvSec < b.tvSec || (a.tvSec == b.tvSec && a.tvNsec < b.tvNsec)
  }

  /** On normalised values the field order is the order of the durations. */
  lemma {:induction false} LessIsShorter(a: TimeSpec, b: TimeSpec)
    requires Normal(a) && Normal(b)
    ensures Less(a, b) <==> Nanos(a) < Nanos(b)
    ensures a == b <==> Nanos(a) == Nanos(b)
  {
    if a.tvSec < b.tvSec {
      assert Nanos(a) < (a.tvSec + 1) * NANOS_PER_SEC <= Nanos(b);
    } else if a.tvSec > b.tvSec {
      assert Nanos(b) < (b.tvSec + 1) * NANOS_PER_SEC <= Nanos(a);
    }
  }

  /** Without normalisation the orders part: `(0 s, 2e9 ns)` sorts before `(1 s, 0 ns)` yet is longer. */
  lemma LessNeedsNormal()
    ensures Less(TimeSpec(0, 2 * NANOS_PER_SEC), TimeSpec(1, 0))
    ensures Nanos(TimeSpec(0, 2 * NANOS_PER_SEC)) > Nanos(TimeSpec(1, 0))
  {
  }
}
