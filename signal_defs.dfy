/**
 * Signal numbers and signal actions: the `SignalNo` enumeration with its
 * numeric discriminants, the conversion from a raw number, `MAX_SIG` and
 * `SignalAction`.
 */
module SignalDefs {
  import opened Words
  import opened Wrappers

  /** A handler address and the mask to install while it runs (`#[derive(Default)]` gives zeros). */
  datatype SignalAction = SignalAction(handler: usize, mask: usize)

  /** SignalAction::default(). */
  function DefaultAction(): (a: SignalAction)
    ensures a.handler == 0 && a.mask == 0
  {
    SignalAction(0, 0)
  }

  /**
   * A `SignalNo`, identified with its `#[repr(u8)]` discriminant: the
   * variants are declared with the numbers 0 to 63, one each, in order.
   */
  type SignalNo = n: nat | n < 64

  const ERR: SignalNo := 0
  const SIGHUP: SignalNo := 1
  const SIGINT: SignalNo := 2
  const SIGQUIT: SignalNo := 3
  const SIGILL: SignalNo := 4
  const SIGTRAP: SignalNo := 5
  const SIGABRT: SignalNo := 6
  const SIGBUS: SignalNo := 7
  const SIGFPE: SignalNo := 8
  const SIGKILL: SignalNo := 9
  const SIGUSR1: SignalNo := 10
  const SIGSEGV: SignalNo := 11
  const SIGUSR2: SignalNo := 12
  const SIGPIPE: SignalNo := 13
  const SIGALRM: SignalNo := 14
  const SIGTERM: SignalNo := 15
  const SIGSTKFLT: SignalNo := 16
  const SIGCHLD: SignalNo := 17
  const SIGCONT: SignalNo := 18
  const SIGSTOP: SignalNo := 19
  const SIGTSTP: SignalNo := 20
  const SIGTTIN: SignalNo := 21
  const SIGTTOU: SignalNo := 22
  const SIGURG: SignalNo := 23
  const SIGXCPU: SignalNo := 24
  const SIGXFSZ: SignalNo := 25
  const SIGVTALRM: SignalNo := 26
  const SIGPROF: SignalNo := 27
  const SIGWINCH: SignalNo := 28
  const SIGIO: SignalNo := 29
  const SIGPWR: SignalNo := 30
  const SIGSYS: SignalNo := 31
  const SIGRTMIN: SignalNo := 32
  const SIGRT1: SignalNo := 33
  const SIGRT2: SignalNo := 34
  const SIGRT3: SignalNo := 35
  const SIGRT4: SignalNo := 36
  const SIGRT5: SignalNo := 37
  const SIGRT6: SignalNo := 38
  const SIGRT7: SignalNo := 39
  const SIGRT8: SignalNo := 40
  const SIGRT9: SignalNo := 41
  const SIGRT10: SignalNo := 42
  const SIGRT11: SignalNo := 43
  const SIGRT12: SignalNo := 44
  const SIGRT13: SignalNo := 45
  const SIGRT14: SignalNo := 46
  const SIGRT15: SignalNo := 47
  const SIGRT16: SignalNo := 48
  const SIGRT17: SignalNo := 49
  const SIGRT18: SignalNo := 50
  const SIGRT19: SignalNo := 51
  const SIGRT20: SignalNo := 52
  const SIGRT21: SignalNo := 53
  const SIGRT22: SignalNo := 54
  const SIGRT23: SignalNo := 55
  const SIGRT24: SignalNo := 56
  const SIGRT25: SignalNo := 57
  const SIGRT26: SignalNo := 58
  const SIGRT27: SignalNo := 59
  const SIGRT28: SignalNo := 60
  const SIGRT29: SignalNo := 61
  const SIGRT30: SignalNo := 62
  const SIGRT31: SignalNo := 63

  /** `SignalNo::try_from(n)`: the variant whose discriminant is n, if there is one. */
  function TryFrom(n: u8): (r: Option<SignalNo>)
    ensures r.Some? <==> n < 64
    ensures r.Some? ==> r.value == n
  {
    if n < 64 then Some(n) else None
  }

  /**
   * `SignalNo::from(num)`: `num as u8` keeps the low eight bits, then the
   * variant with that discriminant, or ERR when there is none.
   */
  function From(num: usize): (s: SignalNo)
    ensures num % 0x100 < 64 ==> s == num % 0x100
    ensures num % 0x100 >= 64 ==> s == ERR
  {
    match TryFrom(num % 0x100) {
      case Some(s) => s
      case None => ERR
    }
  }

  /** Only the low eight bits of the number matter. */
  lemma FromTruncates(num: usize)
    ensures From(num) == From(num % 0x100)
  {
    assert (num % 0x100) % 0x100 == num % 0x100;
  }

  /** A signal number converts back to itself. */
  lemma FromSignal(s: SignalNo)
    ensures From(s) == s
  {
  }

  /** The largest traditional signal number. */
  const MAX_SIG: nat := 31

  /** MAX_SIG is the number of SIGSYS, the last traditional signal; the real-time ones follow. */
  lemma MaxSigIsSigsys()
    ensures SIGSYS == MAX_SIG && SIGRTMIN == MAX_SIG + 1 && SIGRT31 == 63
  {
  }
}
