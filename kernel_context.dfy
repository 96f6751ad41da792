/**
 * Execution-context records of the kernel-context crate: the 31-slot register
 * file with its aliasing accessors, the status word handed to the context
 * switch, and the bookkeeping of the foreign-address-space portal.
 */
module KernelContext {
  import opened Words

  const REGISTER_COUNT: nat := 31
  /** Supervisor Previous Privilege, section 4.1.1 of the RISC-V Privileged Architecture. */
  const SPP_BIT: bv64 := 8
  /** Supervisor Previous Interrupt Enable, same section. */
  const SPIE_BIT: bv64 := 5

  /**
   * The value of a `LocalContext`: registers x1..x31 (slot n-1 holds xn),
   * the saved pc and the two flags the switch turns into status bits.
   */
  datatype Context = Context(x: seq<usize>, sepc: usize, supervisor: bool, interrupt: bool)
  {
    predicate Valid() { |x| == REGISTER_COUNT }

    /** `x(n)`: register xn, 1 <= n <= 31 (any other n panics). */
    function X(n: int): usize
      requires Valid() && 1 <= n <= 31
    {
      x[n - 1]
    }

    /** `a(n)`: argument register an, which is x(10 + n), n <= 7. */
    function A(n: int): usize
      requires Valid() && 0 <= n <= 7
    {
      X(10 + n)
    }

    function Ra(): usize
      requires Valid()
    {
      X(1)
    }

    function Sp(): usize
      requires Valid()
    {
      X(2)
    }

    function Pc(): usize {
      sepc
    }

    /** The context after `*x_mut(n) = v`. */
    function WithX(n: int, v: usize): (r: Context)
      requires Valid() && 1 <= n <= 31
      ensures r.Valid() && r.X(n) == v
      ensures forall m :: 1 <= m <= 31 && m != n ==> r.X(m) == X(m)
      ensures r.sepc == sepc && r.supervisor == supervisor && r.interrupt == interrupt
    {
      this.(x := x[n - 1 := v])
    }

    /** The context after `*a_mut(n) = v`. */
    function WithA(n: int, v: usize): (r: Context)
      requires Valid() && 0 <= n <= 7
      ensures r.Valid() && r.A(n) == v && r.X(10 + n) == v
      ensures forall m :: 1 <= m <= 31 && m != 10 + n ==> r.X(m) == X(m)
      ensures r.sepc == sepc && r.supervisor == supervisor && r.interrupt == interrupt
    {
      WithX(10 + n, v)
    }

    /** The context after `*sp_mut() = v`. */
    function WithSp(v: usize): (r: Context)
      requires Valid()
      ensures r.Valid() && r.Sp() == v && r.X(2) == v
      ensures forall m :: 1 <= m <= 31 && m != 2 ==> r.X(m) == X(m)
      ensures r.sepc == sepc && r.supervisor == supervisor && r.interrupt == interrupt
    {
      WithX(2, v)
    }

    /** The context after `*pc_mut() = v`. */
    function WithPc(v: usize): (r: Context)
      ensures r.Pc() == v && r.x == x && r.supervisor == supervisor && r.interrupt == interrupt
    {
      this.(sepc := v)
    }

    /** `move_next`: the pc advances by one instruction, wrapping at 2^64. */
    function MoveNext(): (r: Context)
      ensures r.x == x && r.supervisor == supervisor && r.interrupt == interrupt
      ensures sepc + 4 < USIZE_LIMIT ==> r.sepc == sepc + 4
      ensures sepc + 4 >= USIZE_LIMIT ==> r.sepc == sepc + 4 - USIZE_LIMIT
    {
      this.(sepc := WrappingAdd(sepc, 4))
    }
  }

  function Zeros(): (z: seq<usize>)
    ensures |z| == REGISTER_COUNT && forall i :: 0 <= i < |z| ==> z[i] == 0
  {
    seq(REGISTER_COUNT, _ => 0)
  }

  /** `LocalContext::empty()`: every register zero, both flags clear. */
  function EmptyContext(): (c: Context)
    ensures c.Valid() && c.sepc == 0 && !c.supervisor && !c.interrupt
    ensures forall n :: 1 <= n <= 31 ==> c.X(n) == 0
  {
    Context(Zeros(), 0, false, false)
  }

  /** `LocalContext::user(pc)`: user mode with interrupts enabled. */
  function UserContext(pc: usize): (c: Context)
    ensures c.Valid() && c.sepc == pc && !c.supervisor && c.interrupt
    ensures forall n :: 1 <= n <= 31 ==> c.X(n) == 0
  {
    Context(Zeros(), pc, false, true)
  }

  /** `LocalContext::thread(pc, interrupt)`: supervisor mode. */
  function ThreadContext(pc: usize, interrupt: bool): (c: Context)
    ensures c.Valid() && c.sepc == pc && c.supervisor && c.interrupt == interrupt
    ensures forall n :: 1 <= n <= 31 ==> c.X(n) == 0
  {
    Context(Zeros(), pc, true, interrupt)
  }

  /** Bit i of a 64-bit status word. */
  predicate Bit(w: bv64, i: bv64)
    requires i < 64
  {
    (w >> i) & 1 == 1
  }

  /**
   * The status word `execute` passes to the switch: the incoming sstatus with
   * SPP forced to `supervisor` and SPIE forced to `interrupt`.
   */
  function StatusWord(incoming: bv64, supervisor: bool, interrupt: bool): (s: bv64)
    ensures Bit(s, SPP_BIT) == supervisor && Bit(s, SPIE_BIT) == interrupt
  {
    var spp := if supervisor then incoming | 0x100 else incoming & !0x100;
    if interrupt then spp | 0x20 else spp & !0x20
  }

  /** Every bit of the incoming status word other than SPP and SPIE passes through. */
  lemma StatusWordKeepsOtherBits(incoming: bv64, supervisor: bool, interrupt: bool, i: bv64)
    requires i < 64 && i != SPP_BIT && i != SPIE_BIT
    ensures Bit(StatusWord(incoming, supervisor, interrupt), i) == Bit(incoming, i)
  {
  }

  /** The status word `PortalCache::init` stores: only SPP and SPIE can be set. */
  function CacheStatus(supervisor: bool, interrupt: bool): (s: bv64)
    ensures Bit(s, SPP_BIT) == supervisor && Bit(s, SPIE_BIT) == interrupt
  {
    (if supervisor then 0x100 else 0) | (if interrupt then 0x20 else 0)
  }

  /**
   * The cache's word is the one `execute` would build from an all-clear
   * incoming word, so every other bit of it is clear.
   */
  lemma CacheStatusIsStatusWord(supervisor: bool, interrupt: bool, i: bv64)
    requires i < 64 && i != SPP_BIT && i != SPIE_BIT
    ensures CacheStatus(supervisor, interrupt) == StatusWord(0, supervisor, interrupt)
    ensures !Bit(CacheStatus(supervisor, interrupt), i)
  {
  }

  /** A `LocalContext` updated in place through its `_mut` accessors. */
  class LocalContext {
    const x: array<usize>
    var sepc: usize
    var supervisor: bool
    var interrupt: bool

    ghost predicate Valid()
      reads this
    {
      x.Length == REGISTER_COUNT
    }

    /** The value this object currently holds. */
    function Value(): (c: Context)
      reads this, x
    {
      Context(x[..], sepc, supervisor, interrupt)
    }

    constructor Empty()
      ensures Valid() && fresh(x) && Value() == EmptyContext()
    {
      x := new usize[REGISTER_COUNT](_ => 0);
      sepc, supervisor, interrupt := 0, false, false;
    }

    constructor User(pc: usize)
      ensures Valid() && fresh(x) && Value() == UserContext(pc)
    {
      x := new usize[REGISTER_COUNT](_ => 0);
      sepc, supervisor, interrupt := pc, false, true;
    }

    constructor Thread(pc: usize, interrupt: bool)
      ensures Valid() && fresh(x) && Value() == ThreadContext(pc, interrupt)
    {
      x := new usize[REGISTER_COUNT](_ => 0);
      sepc, supervisor, this.interrupt := pc, true, interrupt;
    }

    /** `#[derive(Clone)]`: a fresh object holding the same value. */
    method Clone() returns (c: LocalContext)
      requires Valid()
      ensures c.Valid() && fresh(c) && fresh(c.x) && c.Value() == Value()
    {
      c := new LocalContext.Empty();
      forall i | 0 <= i < REGISTER_COUNT {
        c.x[i] := x[i];
      }
      c.sepc, c.supervisor, c.interrupt := sepc, supervisor, interrupt;
    }


    /** Assignment of a saved context value, `*ctx = saved` for a clone kept aside. */
    method Assign(c: Context)
      requires Valid() && c.Valid()
      modifies this, x
      ensures Valid() && Value() == c
    {
      forall i | 0 <= i < REGISTER_COUNT {
        x[i] := c.x[i];
      }
      sepc, supervisor, interrupt := c.sepc, c.supervisor, c.interrupt;
      assert x[..] == c.x;
    }

    /** `*x_mut(n) = v`. */
    method SetX(n: int, v: usize)
      requires Valid() && 1 <= n <= 31
      modifies x
      ensures Valid() && Value() == old(Value()).WithX(n, v)
    {
      x[n - 1] := v;
    }

    /** `*a_mut(n) = v`. */
    method SetA(n: int, v: usize)
      requires Valid() && 0 <= n <= 7
      modifies x
      ensures Valid() && Value() == old(Value()).WithA(n, v)
    {
      SetX(10 + n, v);
    }

    /** `*sp_mut() = v`. */
    method SetSp(v: usize)
      requires Valid()
      modifies x
      ensures Valid() && Value() == old(Value()).WithSp(v)
    {
      SetX(2, v);
    }

    /** `*pc_mut() = v`. */
    method SetPc(v: usize)
      requires Valid()
      modifies this
      ensures Valid() && Value() == old(Value()).WithPc(v)
    {
      sepc := v;
    }

    method MoveNext()
      requires Valid()
      modifies this
      ensures Valid() && Value() == old(Value()).MoveNext()
    {
      sepc := WrappingAdd(sepc, 4);
    }

    /**
     * The status-word computation at the start of `execute`; the switch into
     * the context itself is hand-written assembly and is not modelled.
     */
    method ExecuteStatus(incoming: bv64) returns (sstatus: bv64)
      ensures sstatus == StatusWord(incoming, supervisor, interrupt)
    {
      var spp: bv64;
      if supervisor {
        spp := incoming | 0x100;
      } else {
        spp := incoming & !0x100;
      }
      if interrupt {
        sstatus := spp | 0x20;
      } else {
        sstatus := spp & !0x20;
      }
    }
  }

  /** The four-word record the portal code reads before switching address space. */
  class PortalCache {
    var satp: usize
    var sepc: usize
    var a0: usize
    var sstatus: bv64

    constructor ()
      ensures satp == 0 && sepc == 0 && a0 == 0 && sstatus == 0
    {
      satp, sepc, a0, sstatus := 0, 0, 0, 0;
    }

    method Init(satp: usize, pc: usize, a0: usize, supervisor: bool, interrupt: bool)
      modifies this
      ensures this.satp == satp && sepc == pc && this.a0 == a0
      ensures sstatus == CacheStatus(supervisor, interrupt)
    {
      this.satp := satp;
      sepc := pc;
      this.a0 := a0;
      var s: bv64 := 0;
      if supervisor { s := s | 0x100; }
      if interrupt { s := s | 0x20; }
      sstatus := s;
    }
  }

  /** A context that runs in another address space, named by its satp. */
  class ForeignContext {
    const context: LocalContext
    var satp: usize

    ghost predicate Valid()
      reads this, context
    {
      context.Valid()
    }

    constructor (context: LocalContext, satp: usize)
      requires context.Valid()
      ensures Valid() && this.context == context && this.satp == satp
    {
      this.context := context;
      this.satp := satp;
    }

    /**
     * `execute`: fills the portal cache slot `cache` and returns its status
     * word; the flags and a0 it touches on the way end where they started.
     */
    method Execute(cache: PortalCache) returns (sstatus: bv64)
      requires Valid()
      modifies context, context.x, cache
      ensures Valid() && satp == old(satp)
      ensures context.Value() == old(context.Value())
      ensures cache.satp == satp && cache.sepc == old(context.sepc)
      ensures cache.a0 == old(context.Value().A(0))
      ensures cache.sstatus == CacheStatus(old(context.supervisor), old(context.interrupt))
      ensures sstatus == cache.sstatus
    {
      var origSupervisor := context.supervisor;
      var origInterrupt := context.interrupt;
      context.supervisor := true;
      context.interrupt := false;
      cache.Init(satp, context.sepc, context.Value().A(0), origSupervisor, origInterrupt);
      context.supervisor := origSupervisor;
      context.interrupt := origInterrupt;
      context.SetA(0, cache.a0);
      sstatus := cache.sstatus;
    }
  }

  /** The `SlotKey` implementations for `()` and `usize`. */
  datatype SlotKey = UnitKey | IndexKey(n: usize)

  function Index(key: SlotKey): (i: usize)
    ensures key.UnitKey? ==> i == 0
    ensures key.IndexKey? ==> i == key.n
  {
    match key
    case UnitKey => 0
    case IndexKey(n) => n
  }

  const WORD_BYTES: nat := 8
  const PORTAL_CODE_SIZE: nat := 256
  /** Size of `PortalCache`: four machine words. */
  const PORTAL_CACHE_SIZE: nat := 4 * WORD_BYTES

  /** `text_offset`: the portal code follows the slot-count word. */
  function TextOffset(): nat {
    WORD_BYTES
  }

  /** `cache_offset(i)`: the cache slots follow the portal code. */
  function CacheOffset(index: nat): nat {
    WORD_BYTES + PORTAL_CODE_SIZE + index * PORTAL_CACHE_SIZE
  }

  /** `calculate_size(slots)`: header word, code and every slot. */
  function CalculateSize(slots: nat): nat {
    WORD_BYTES + PORTAL_CODE_SIZE + slots * PORTAL_CACHE_SIZE
  }

  /**
   * Layout of a portal with `slots` caches: the code area and every cache
   * slot lie inside `calculate_size(slots)`, slot i ends where slot i+1
   * begins, and the code area ends where slot 0 begins.
   */
  lemma PortalLayout(slots: nat, i: nat)
    requires i < slots
    ensures CalculateSize(slots) == CacheOffset(slots)
    ensures TextOffset() + PORTAL_CODE_SIZE == CacheOffset(0) <= CacheOffset(i)
    ensures CacheOffset(i) + PORTAL_CACHE_SIZE == CacheOffset(i + 1) <= CalculateSize(slots)
  {
  }

  /** `transit_entry`: the address the portal code starts at. */
  function TransitEntry(transit: nat): nat {
    transit + TextOffset()
  }

  /** `transit_cache(key)`: the address of the key's cache slot. */
  function TransitCache(transit: nat, key: SlotKey): nat {
    transit + CacheOffset(Index(key))
  }

  /** Distinct slot indices name caches that do not overlap, and none overlaps the code. */
  lemma CachesDisjoint(transit: nat, k1: SlotKey, k2: SlotKey)
    requires Index(k1) < Index(k2)
    ensures TransitEntry(transit) + PORTAL_CODE_SIZE <= TransitCache(transit, k1)
    ensures TransitCache(transit, k1) + PORTAL_CACHE_SIZE <= TransitCache(transit, k2)
  {
  }
}
