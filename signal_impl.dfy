/**
 * The per-process signal state of the signal-impl crate: the pending and
 * mask bit sets, the handling state (frozen by SIGSTOP, or running a user
 * handler with the interrupted context saved), the 32 installed actions,
 * and the delivery state machine run before returning to user mode.
 */
module SignalImpl {
  import opened Words
  import opened Wrappers
  import opened SignalDefs
  import opened KernelContext

  /** `usize::BITS`. */
  const WORD_BITS: nat := 64

  function Pow2(k: nat): (p: nat)
    ensures p >= 1
  {
    if k == 0 then 1 else 2 * Pow2(k - 1)
  }

  lemma Pow2Word()
    ensures Pow2(WORD_BITS) == USIZE_LIMIT
  {
    assert Pow2(4) == 0x10;
    assert Pow2(8) == 0x100;
    assert Pow2(12) == 0x1000;
    assert Pow2(16) == 0x1_0000;
    assert Pow2(20) == 0x10_0000;
    assert Pow2(24) == 0x100_0000;
    assert Pow2(28) == 0x1000_0000;
    assert Pow2(32) == 0x1_0000_0000;
    assert Pow2(36) == 0x10_0000_0000;
    assert Pow2(40) == 0x100_0000_0000;
    assert Pow2(44) == 0x1000_0000_0000;
    assert Pow2(48) == 0x1_0000_0000_0000;
    assert Pow2(52) == 0x10_0000_0000_0000;
    assert Pow2(56) == 0x100_0000_0000_0000;
    assert Pow2(60) == 0x1000_0000_0000_0000;
  }

  /** The low k bits of n, least significant first. */
  function ToBits(n: nat, k: nat): (b: seq<bool>)
    ensures |b| == k
  {
    if k == 0 then [] else [n % 2 == 1] + ToBits(n / 2, k - 1)
  }

  /** The number whose bits, least significant first, are b. */
  function FromBits(b: seq<bool>): (n: nat)
    ensures n < Pow2(|b|)
  {
    if b == [] then 0 else (if b[0] then 1 else 0) + 2 * FromBits(b[1..])
  }

  /** Reading back the k bits of a number below 2^k gives the number. */
  lemma {:induction false} FromToBits(n: nat, k: nat)
    requires n < Pow2(k)
    ensures FromBits(ToBits(n, k)) == n
  {
    if k > 0 {
      FromToBits(n / 2, k - 1);
      assert ToBits(n, k)[1..] == ToBits(n / 2, k - 1);
    }
  }

  /** Taking the bits of the number a bit sequence denotes gives the sequence. */
  lemma {:induction false} ToFromBits(b: seq<bool>)
    ensures ToBits(FromBits(b), |b|) == b
  {
    if b != [] {
      ToFromBits(b[1..]);
      var n := FromBits(b);
      assert n / 2 == FromBits(b[1..]);
      assert (n % 2 == 1) == b[0];
      assert b == [b[0]] + b[1..];
    }
  }

  /** A bit sequence denotes zero exactly when no bit is set. */
  lemma {:induction false} FromBitsZero(b: seq<bool>)
    ensures FromBits(b) == 0 <==> forall i :: 0 <= i < |b| ==> !b[i]
  {
    if b != [] {
      FromBitsZero(b[1..]);
      assert forall i :: 1 <= i < |b| ==> b[i] == b[1..][i - 1];
    }
  }

  type Bits = b: seq<bool> | |b| == WORD_BITS witness seq(WORD_BITS, _ => false)

  /** `SignalSet(usize)`, seen as the 64 bits of its word: `bits[i]` is bit i. */
  datatype SignalSet = SignalSet(bits: Bits)

  /** `set.0`: the word the bits make up. */
  function Word(s: SignalSet): (w: usize)
  {
    Pow2Word();
    FromBits(s.bits)
  }

  /** `SignalSet(w)`. */
  function OfWord(w: usize): (s: SignalSet)
  {
    SignalSet(ToBits(w, WORD_BITS))
  }

  /** A word wrapped as a set and unwrapped again is unchanged, and the reverse. */
  lemma WordRoundTrip(w: usize, s: SignalSet)
    ensures Word(OfWord(w)) == w
    ensures OfWord(Word(s)) == s
  {
    Pow2Word();
    FromToBits(w, WORD_BITS);
    ToFromBits(s.bits);
  }

  /** `SignalSet(0)`. */
  function Empty(): (s: SignalSet)
    ensures Word(s) == 0
    ensures forall i :: !ContainBit(s, i)
  {
    var s := SignalSet(seq(WORD_BITS, _ => false));
    FromBitsZero(s.bits);
    s
  }

  /** `contain_bit`: bits 64 and above are never contained. */
  predicate ContainBit(s: SignalSet, bit: nat) {
    bit < WORD_BITS && s.bits[bit]
  }

  /** `add_bit`: sets bit `bit`; a bit of 64 or more is ignored. */
  function AddBit(s: SignalSet, bit: nat): (r: SignalSet)
    ensures forall j :: ContainBit(r, j) <==> ContainBit(s, j) || (j == bit && bit < WORD_BITS)
    ensures bit >= WORD_BITS ==> r == s
  {
    if bit < WORD_BITS then SignalSet(s.bits[bit := true]) else s
  }

  /** `remove_bit`: clears bit `bit` and no other; a bit of 64 or more is ignored. */
  function RemoveBit(s: SignalSet, bit: nat): (r: SignalSet)
    ensures forall j :: ContainBit(r, j) <==> ContainBit(s, j) && j != bit
    ensures bit >= WORD_BITS ==> r == s
  {
    if bit < WORD_BITS then SignalSet(s.bits[bit := false]) else s
  }

  /** `union`: the bits set in either. */
  function Union(s: SignalSet, rhs: SignalSet): (r: SignalSet)
    ensures forall j :: ContainBit(r, j) <==> ContainBit(s, j) || ContainBit(rhs, j)
  {
    SignalSet(seq(WORD_BITS, i requires 0 <= i < WORD_BITS => s.bits[i] || rhs.bits[i]))
  }

  /** `difference`: the bits of `s` not set in `rhs`. */
  function Difference(s: SignalSet, rhs: SignalSet): (r: SignalSet)
    ensures forall j :: ContainBit(r, j) <==> ContainBit(s, j) && !ContainBit(rhs, j)
  {
    SignalSet(seq(WORD_BITS, i requires 0 <= i < WORD_BITS => s.bits[i] && !rhs.bits[i]))
  }

  /** Bit j is pending in `received` and not blocked by `mask`. */
  predicate Deliverable(received: SignalSet, mask: SignalSet, j: nat) {
    ContainBit(received, j) && !ContainBit(mask, j)
  }

  /** The lowest set bit at or above i, or 64 when there is none. */
  function LowestFrom(b: Bits, i: nat): (r: nat)
    requires i <= WORD_BITS
    decreases WORD_BITS - i
    ensures i <= r <= WORD_BITS && (r < WORD_BITS ==> b[r])
    ensures forall j :: i <= j < r ==> !b[j]
  {
    if i == WORD_BITS then WORD_BITS else if b[i] then i else LowestFrom(b, i + 1)
  }

  /** `trailing_zeros`: the number of clear bits below the lowest set one. */
  function TrailingZeros(s: SignalSet): nat {
    LowestFrom(s.bits, 0)
  }

  /** `find_first_one(mask)`: the lowest deliverable bit, or None when nothing is deliverable. */
  function FindFirstOne(s: SignalSet, mask: SignalSet): (r: Option<nat>)
    ensures r.None? <==> forall j :: !Deliverable(s, mask, j)
    ensures r.Some? ==> r.value < WORD_BITS && Deliverable(s, mask, r.value)
    ensures r.Some? ==> forall j: nat :: j < r.value ==> !Deliverable(s, mask, j)
  {
    var deliverable := Difference(s, mask);
    FromBitsZero(deliverable.bits);
    if Word(deliverable) == 0 then
      assert forall j :: !Deliverable(s, mask, j) by {
        forall j ensures !Deliverable(s, mask, j) {
          assert !ContainBit(deliverable, j);
        }
      }
      None
    else
      var k := TrailingZeros(deliverable);
      assert ContainBit(deliverable, k) && Deliverable(s, mask, k);
      Some(k)
  }

  /** `valid_index`: the action-table index of a traditional signal, None for ERR and 32..63. */
  function ValidIndex(signum: SignalNo): (r: Option<nat>)
    ensures r.Some? <==> 1 <= signum <= MAX_SIG
    ensures r.Some? ==> r.value == signum
  {
    if signum == 0 || signum > MAX_SIG then None else Some(signum)
  }

  /** `kill_code`: the exit code of a process killed by `signum`. */
  function KillCode(signum: SignalNo): i32 {
    -(signum as int)
  }

  /** `should_ignore_by_default`. */
  predicate IgnoredByDefault(signum: SignalNo) {
    signum == SIGCHLD || signum == SIGURG || signum == SIGCONT
  }

  /** What a process is doing about signals: waiting for SIGCONT, or running a handler. */
  datatype Handling = Frozen | UserSignal(saved: Context)

  datatype SignalResult =
    | NoSignal
    | IsHandlingSignal
    | Ignored
    | Handled
    | ProcessKilled(code: i32)
    | ProcessSuspended

  /** The value of a `SignalImpl`. */
  datatype SignalState = SignalState(
    received: SignalSet, mask: SignalSet, handling: Option<Handling>, actions: seq<Option<SignalAction>>)
  {
    predicate Valid() {
      && |actions| == MAX_SIG + 1
      && (handling.Some? && handling.value.UserSignal? ==> handling.value.saved.Valid())
    }

    /** `actions[idx].unwrap_or_default()`. */
    function ActionAt(idx: nat): (a: SignalAction)
      requires Valid() && idx <= MAX_SIG
      ensures actions[idx].Some? ==> a == actions[idx].value
      ensures actions[idx].None? ==> a == DefaultAction()
    {
      if actions[idx].Some? then actions[idx].value else DefaultAction()
    }
  }

  /** `SignalImpl::new()`: nothing pending, nothing masked, nothing installed. */
  function Initial(): (st: SignalState)
    ensures st.Valid() && st.handling.None? && Word(st.received) == 0 && Word(st.mask) == 0
    ensures forall i :: 0 <= i < |st.actions| ==> st.actions[i].None?
  {
    SignalState(Empty(), Empty(), None, seq(MAX_SIG + 1, _ => None))
  }

  /**
   * `take_deliverable_signal`: the lowest deliverable bit is cleared from
   * `received`; it is returned when it numbers a traditional signal, and
   * dropped silently otherwise.
   */
  function Take(st: SignalState): (r: (SignalState, Option<SignalNo>))
    ensures r.0.mask == st.mask && r.0.handling == st.handling && r.0.actions == st.actions
    ensures r.1.Some? ==> 1 <= r.1.value <= MAX_SIG && Deliverable(st.received, st.mask, r.1.value)
    ensures FindFirstOne(st.received, st.mask).None? ==> r.0 == st && r.1.None?
    ensures FindFirstOne(st.received, st.mask).Some? ==>
      var k := FindFirstOne(st.received, st.mask).value;
      r.0.received == RemoveBit(st.received, k) && (r.1.Some? <==> 1 <= k <= MAX_SIG) && (r.1.Some? ==> r.1.value == k)
  {
    match FindFirstOne(st.received, st.mask)
    case None => (st, None)
    case Some(bit) =>
      var next := st.(received := RemoveBit(st.received, bit));
      var signum := From(bit);
      FromSignal(bit);
      if ValidIndex(signum).Some? then (next, Some(signum)) else (next, None)
  }

  /** `handle_frozen`: a pending, unmasked SIGCONT ends the freeze. */
  function Thaw(st: SignalState): (r: (SignalState, SignalResult))
  {
    if Deliverable(st.received, st.mask, SIGCONT) then
      (st.(received := RemoveBit(st.received, SIGCONT), handling := None), Handled)
    else
      (st, ProcessSuspended)
  }

  /** The state, the context and the result one `handle_signals` call leaves. */
  datatype Outcome = Outcome(state: SignalState, context: Context, result: SignalResult)

  /** `handle_signals` on a state and the interrupted user context. */
  function Handle(st: SignalState, c: Context): (o: Outcome)
    requires st.Valid() && c.Valid()
    ensures o.state.Valid() && o.context.Valid()
  {
    if Deliverable(st.received, st.mask, SIGKILL) then
      Outcome(st.(received := RemoveBit(st.received, SIGKILL)), c, ProcessKilled(KillCode(SIGKILL)))
    else if st.handling == Some(Frozen) then
      var (next, r) := Thaw(st);
      Outcome(next, c, r)
    else if st.handling.Some? then
      Outcome(st, c, IsHandlingSignal)
    else
      var (next, taken) := Take(st);
      match taken
      case None => Outcome(next, c, NoSignal)
      case Some(signum) =>
        // The source's SIGKILL arm: unreachable (see KillNeverTaken), kept as written.
        if signum == SIGKILL then Outcome(next, c, ProcessKilled(KillCode(signum)))
        else if signum == SIGSTOP then Outcome(next.(handling := Some(Frozen)), c, ProcessSuspended)
        else
          var action := next.ActionAt(signum);
          if action.handler != 0 then
            Outcome(next.(handling := Some(UserSignal(c))), c.WithPc(action.handler).WithA(0, signum), Handled)
          else if IgnoredByDefault(signum) then Outcome(next, c, Ignored)
          else Outcome(next, c, ProcessKilled(KillCode(signum)))
  }

  /** `sig_return` on a state and the current context: the result is whether a handler was left. */
  function Return(st: SignalState, c: Context): (r: (SignalState, Context, bool))
  {
    match st.handling
    case Some(UserSignal(saved)) => (st.(handling := None), saved, true)
    case _ => (st, c, false)
  }

  /** A pending, unmasked SIGKILL wins over everything else: it is consumed and kills with code -9. */
  lemma KillFirst(st: SignalState, c: Context)
    requires st.Valid() && c.Valid() && Deliverable(st.received, st.mask, SIGKILL)
    ensures Handle(st, c).result == ProcessKilled(-9)
    ensures Handle(st, c).state == st.(received := RemoveBit(st.received, SIGKILL))
    ensures Handle(st, c).context == c
  {
  }

  /**
   * While frozen, only a pending, unmasked SIGCONT resumes the process:
   * it is consumed and the freeze ends. Otherwise nothing changes.
   */
  lemma FrozenWaitsForCont(st: SignalState, c: Context)
    requires st.Valid() && c.Valid() && !Deliverable(st.received, st.mask, SIGKILL) && st.handling == Some(Frozen)
    ensures var o := Handle(st, c);
      && o.context == c
      && (Deliverable(st.received, st.mask, SIGCONT) ==>
            o.result == Handled && o.state.handling.None? && o.state.received == RemoveBit(st.received, SIGCONT))
      && (!Deliverable(st.received, st.mask, SIGCONT) ==> o.result == ProcessSuspended && o.state == st)
  {
  }

  /** While a user handler runs, no other signal is delivered. */
  lemma BusyWhileHandling(st: SignalState, c: Context)
    requires st.Valid() && c.Valid() && !Deliverable(st.received, st.mask, SIGKILL)
    requires st.handling.Some? && st.handling.value.UserSignal?
    ensures Handle(st, c) == Outcome(st, c, IsHandlingSignal)
  {
  }

  /** The SIGKILL arm of the delivery match is never taken: the first check consumed any deliverable SIGKILL. */
  lemma KillNeverTaken(st: SignalState)
    requires !Deliverable(st.received, st.mask, SIGKILL)
    ensures Take(st).1 != Some(SIGKILL)
  {
  }

  /**
   * With nothing being handled, the lowest deliverable signal k is removed
   * from `received` and decides the outcome: SIGSTOP freezes; an installed
   * handler runs with the interrupted context saved, pc at the handler and
   * a0 = k; SIGCHLD, SIGURG and SIGCONT are otherwise ignored; any other
   * signal kills with code -k.
   */
  lemma Delivery(st: SignalState, c: Context, k: nat)
    requires st.Valid() && c.Valid() && !Deliverable(st.received, st.mask, SIGKILL) && st.handling.None?
    requires FindFirstOne(st.received, st.mask) == Some(k) && 1 <= k <= MAX_SIG
    ensures var o := Handle(st, c);
      && o.state.received == RemoveBit(st.received, k) && !ContainBit(o.state.received, k)
      && o.state.mask == st.mask && o.state.actions == st.actions
      && (k == SIGSTOP ==> o.state.handling == Some(Frozen) && o.result == ProcessSuspended && o.context == c)
      && (k != SIGSTOP && st.ActionAt(k).handler != 0 ==>
            && o.state.handling == Some(UserSignal(c)) && o.result == Handled
            && o.context.Pc() == st.ActionAt(k).handler && o.context.A(0) == k
            && (forall n :: 1 <= n <= 31 && n != 10 ==> o.context.X(n) == c.X(n))
            && o.context.supervisor == c.supervisor && o.context.interrupt == c.interrupt)
      && (k != SIGSTOP && st.ActionAt(k).handler == 0 && IgnoredByDefault(k) ==>
            o.state.handling.None? && o.result == Ignored && o.context == c)
      && (k != SIGSTOP && st.ActionAt(k).handler == 0 && !IgnoredByDefault(k) ==>
            o.state.handling.None? && o.result == ProcessKilled(-(k as int)) && o.context == c)
  {
  }

  /**
   * With nothing being handled and no deliverable signal of a traditional
   * number, the result is NoSignal; a deliverable bit 0 or 32..63 is
   * consumed on the way.
   */
  lemma NothingToDeliver(st: SignalState, c: Context)
    requires st.Valid() && c.Valid() && !Deliverable(st.received, st.mask, SIGKILL) && st.handling.None?
    requires FindFirstOne(st.received, st.mask).None? || !(1 <= FindFirstOne(st.received, st.mask).value <= MAX_SIG)
    ensures Handle(st, c).result == NoSignal && Handle(st, c).context == c
    ensures FindFirstOne(st.received, st.mask).None? ==> Handle(st, c).state == st
  {
  }

  /** A masked signal stays pending whatever handle_signals does. */
  lemma MaskedStaysPending(st: SignalState, c: Context, k: nat)
    requires st.Valid() && c.Valid() && ContainBit(st.received, k) && ContainBit(st.mask, k)
    ensures ContainBit(Handle(st, c).state.received, k)
  {
    if Deliverable(st.received, st.mask, SIGKILL) {
      assert k != SIGKILL;
    } else if st.handling == Some(Frozen) {
      assert k != SIGCONT || !Deliverable(st.received, st.mask, SIGCONT);
    } else if st.handling.None? {
      var f := FindFirstOne(st.received, st.mask);
      if f.Some? {
        assert f.value != k;
        assert Take(st).0.received == RemoveBit(st.received, f.value);
      }
    }
  }

  /**
   * Entering a user handler and returning from it: sig_return gives back
   * exactly the context the handler interrupted, and nothing is handled
   * any more.
   */
  lemma HandlerThenReturn(st: SignalState, c: Context, now: Context)
    requires st.Valid() && c.Valid() && st.handling.None?
    requires Handle(st, c).result == Handled
    ensures Return(Handle(st, c).state, now) == (Handle(st, c).state.(handling := None), c, true)
  {
    HandledSavesContext(st, c);
  }

  /** Handled, from a state handling nothing, means a user handler was entered with `c` saved. */
  lemma HandledSavesContext(st: SignalState, c: Context)
    requires st.Valid() && c.Valid() && st.handling.None?
    requires Handle(st, c).result == Handled
    ensures Handle(st, c).state.handling == Some(UserSignal(c))
  {
    assert !Deliverable(st.received, st.mask, SIGKILL);
    var t := Take(st);
    assert t.1.Some?;
  }

  /** `sig_return` with nothing handled, or while frozen: no change and false. */
  lemma ReturnWithoutHandler(st: SignalState, c: Context)
    requires !(st.handling.Some? && st.handling.value.UserSignal?)
    ensures Return(st, c) == (st, c, false)
  {
  }

  /** `SignalImpl`: state updated in place by the `Signal` trait methods. */
  class SignalImpl {
    var received: SignalSet
    var mask: SignalSet
    var handling: Option<Handling>
    const actions: array<Option<SignalAction>>

    function State(): SignalState
      reads this, actions
    {
      SignalState(received, mask, handling, actions[..])
    }

    ghost predicate Valid()
      reads this, actions
    {
      State().Valid()
    }

    /** `SignalImpl::new()`. */
    constructor ()
      ensures Valid() && fresh(actions) && State() == Initial()
    {
      received, mask, handling := Empty(), Empty(), None;
      actions := new Option<SignalAction>[MAX_SIG + 1](_ => None);
      new;
      assert actions[..] == Initial().actions;
    }

    /** `take_deliverable_signal`. */
    method TakeDeliverableSignal() returns (r: Option<SignalNo>)
      requires Valid()
      modifies this
      ensures Valid() && (State(), r) == Take(old(State()))
    {
      var bit := FindFirstOne(received, mask);
      if bit.None? {
        return None;
      }
      received := RemoveBit(received, bit.value);
      var signum := From(bit.value);
      if ValidIndex(signum).Some? {
        r := Some(signum);
      } else {
        r := None;
      }
    }

    /** `handle_frozen`. */
    method HandleFrozen() returns (r: SignalResult)
      requires Valid()
      modifies this
      ensures Valid() && (State(), r) == Thaw(old(State()))
    {
      if ContainBit(received, SIGCONT) && !ContainBit(mask, SIGCONT) {
        received := RemoveBit(received, SIGCONT);
        handling := None;
        r := Handled;
      } else {
        r := ProcessSuspended;
      }
    }

    /** `from_fork`: the child inherits the mask and the actions, nothing pending or handled. */
    method FromFork() returns (child: SignalImpl)
      requires Valid()
      ensures fresh(child) && fresh(child.actions) && child.Valid()
      ensures child.State() == SignalState(Empty(), mask, None, actions[..])
    {
      child := new SignalImpl();
      child.mask := mask;
      forall i | 0 <= i < MAX_SIG + 1 {
        child.actions[i] := actions[i];
      }
      assert child.actions[..] == actions[..];
    }

    /** `clear`, on exec: everything back to its initial value. */
    method Clear()
      requires Valid()
      modifies this, actions
      ensures Valid() && State() == Initial()
    {
      received, mask, handling := Empty(), Empty(), None;
      forall i | 0 <= i < MAX_SIG + 1 {
        actions[i] := None;
      }
      assert actions[..] == Initial().actions;
    }

    /** `add_signal`: a traditional signal becomes pending; ERR and 32..63 are ignored. */
    method AddSignal(signal: SignalNo)
      requires Valid()
      modifies this
      ensures Valid() && mask == old(mask) && handling == old(handling)
      ensures 1 <= signal <= MAX_SIG ==> ContainBit(received, signal)
      ensures forall j :: j != signal ==> (ContainBit(received, j) <==> old(ContainBit(received, j)))
      ensures !(1 <= signal <= MAX_SIG) ==> received == old(received)
    {
      var idx := ValidIndex(signal);
      if idx.Some? {
        received := AddBit(received, idx.value);
      }
    }

    /** `is_handling_signal`. */
    function IsHandling(): (b: bool)
      reads this
      ensures b <==> handling.Some?
    {
      handling.Some?
    }

    /**
     * `get_action_ref`: None for SIGKILL, SIGSTOP and numbers without a
     * table slot; otherwise the installed action, or the default one.
     */
    function GetActionRef(signum: SignalNo): (r: Option<SignalAction>)
      requires Valid()
      reads this, actions
      ensures r.None? <==> signum == SIGKILL || signum == SIGSTOP || !(1 <= signum <= MAX_SIG)
      ensures r.Some? && actions[signum].Some? ==> r.value == actions[signum].value
      ensures r.Some? && actions[signum].None? ==> r.value == DefaultAction()
    {
      if signum == SIGKILL || signum == SIGSTOP then None
      else match ValidIndex(signum) {
        case None => None
        case Some(idx) => Some(State().ActionAt(idx))
      }
    }

    /**
     * `set_action`: refused (false) for SIGKILL, SIGSTOP and numbers without
     * a table slot; otherwise the action is installed and read back by
     * get_action_ref, and no other slot changes.
     */
    method SetAction(signum: SignalNo, action: SignalAction) returns (ok: bool)
      requires Valid()
      modifies actions
      ensures Valid()
      ensures ok <==> signum != SIGKILL && signum != SIGSTOP && 1 <= signum <= MAX_SIG
      ensures ok ==> actions[..] == old(actions[..])[signum := Some(action)] && GetActionRef(signum) == Some(action)
      ensures !ok ==> actions[..] == old(actions[..])
    {
      if signum == SIGKILL || signum == SIGSTOP {
        return false;
      }
      var idx := ValidIndex(signum);
      if idx.None? {
        return false;
      }
      actions[idx.value] := Some(action);
      ok := true;
    }

    /** `update_mask`: installs the new mask and returns the previous one. */
    method UpdateMask(m: usize) returns (prev: usize)
      requires Valid()
      modifies this
      ensures Valid() && prev == Word(old(mask)) && Word(mask) == m
      ensures received == old(received) && handling == old(handling)
    {
      prev := Word(mask);
      mask := OfWord(m);
      WordRoundTrip(m, mask);
    }

    /** `handle_signals`, updating the interrupted context in place. */
    method HandleSignals(ctx: LocalContext) returns (r: SignalResult)
      requires Valid() && ctx.Valid()
      modifies this, ctx, ctx.x
      ensures Valid() && ctx.Valid()
      ensures Outcome(State(), ctx.Value(), r) == Handle(old(State()), old(ctx.Value()))
    {
      if ContainBit(received, SIGKILL) && !ContainBit(mask, SIGKILL) {
        received := RemoveBit(received, SIGKILL);
        return ProcessKilled(KillCode(SIGKILL));
      }
      match handling {
        case Some(Frozen) =>
          r := HandleFrozen();
          return;
        case Some(UserSignal(_)) =>
          return IsHandlingSignal;
        case None =>
      }
      var taken := TakeDeliverableSignal();
      if taken.None? {
        return NoSignal;
      }
      var signum := taken.value;
      if signum == SIGKILL {
        assert false;
      } else if signum == SIGSTOP {
        handling := Some(Frozen);
        r := ProcessSuspended;
      } else {
        var action := if actions[signum].Some? then actions[signum].value else DefaultAction();
        if action.handler != 0 {
          handling := Some(UserSignal(ctx.Value()));
          ctx.SetPc(action.handler);
          ctx.SetA(0, signum);
          r := Handled;
        } else if IgnoredByDefault(signum) {
          r := Ignored;
        } else {
          r := ProcessKilled(KillCode(signum));
        }
      }
    }

    /**
     * `sig_return`: leaving a user handler restores the saved context and
     * gives true; otherwise (nothing handled, or frozen) nothing changes and
     * the answer is false.
     */
    method SigReturn(ctx: LocalContext) returns (ok: bool)
      requires Valid() && ctx.Valid()
      modifies this, ctx, ctx.x
      ensures Valid() && ctx.Valid()
      ensures (State(), ctx.Value(), ok) == Return(old(State()), old(ctx.Value()))
    {
      var h := handling;
      handling := None;
      match h {
        case None =>
          ok := false;
        case Some(Frozen) =>
          handling := Some(Frozen);
          ok := false;
        case Some(UserSignal(saved)) =>
          ctx.Assign(saved);
          ok := true;
      }
    }
  }
}
