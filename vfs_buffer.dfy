/**
 * UserBuffer of the easy-fs VFS layer: the scattered slices of user memory
 * a read or write system call names, and the iterator over their bytes.
 */
module VfsBuffer {
  import opened Words
  import opened Wrappers

  // ---------------------------------------------------------------------
  // UserBuffer
  // ---------------------------------------------------------------------

  /** UserBuffer: the slices of user memory a system call names. */
  datatype UserBuffer = UserBuffer(buffers: seq<seq<u8>>)

  function Sum(xs: seq<nat>): nat {
    if |xs| == 0 then 0 else xs[0] + Sum(xs[1..])
  }

  function Lengths(bufs: seq<seq<u8>>): (r: seq<nat>)
    ensures |r| == |bufs| && forall k :: 0 <= k < |bufs| ==> r[k] == |bufs[k]|
  {
    seq(|bufs|, k requires 0 <= k < |bufs| => |bufs[k]|)
  }

  /** The bytes of the slices one after the other. */
  function Concat(bufs: seq<seq<u8>>): seq<u8> {
    if |bufs| == 0 then [] else bufs[0] + Concat(bufs[1..])
  }

  lemma {:induction false} SumAppend(a: seq<nat>, b: seq<nat>)
    ensures Sum(a + b) == Sum(a) + Sum(b)
  {
    if |a| > 0 {
      assert (a + b)[1..] == a[1..] + b;
      SumAppend(a[1..], b);
    } else {
      assert a + b == b;
    }
  }

  lemma {:induction false} ConcatAppend(a: seq<seq<u8>>, b: seq<seq<u8>>)
    ensures Concat(a + b) == Concat(a) + Concat(b)
  {
    if |a| > 0 {
      assert (a + b)[1..] == a[1..] + b;
      ConcatAppend(a[1..], b);
    } else {
      assert a + b == b;
    }
  }

  lemma {:induction false} ConcatLength(bufs: seq<seq<u8>>)
    ensures |Concat(bufs)| == Sum(Lengths(bufs))
  {
    if |bufs| > 0 {
      ConcatLength(bufs[1..]);
      assert Lengths(bufs)[1..] == Lengths(bufs[1..]);
    }
  }

  /** One more slice of a prefix adds its bytes. */
  lemma ConcatStep(bufs: seq<seq<u8>>, k: nat)
    requires k < |bufs|
    ensures Concat(bufs[..k + 1]) == Concat(bufs[..k]) + bufs[k]
  {
    assert bufs[..k + 1] == bufs[..k] + [bufs[k]];
    ConcatAppend(bufs[..k], [bufs[k]]);
    assert Concat([bufs[k]]) == bufs[k] + Concat([]);
  }

  /** Slice k starts where the slices before it end and ends within the buffer. */
  lemma SliceWithin(bufs: seq<seq<u8>>, k: nat)
    requires k < |bufs|
    ensures |Concat(bufs[..k + 1])| == |Concat(bufs[..k])| + |bufs[k]|
    ensures |Concat(bufs[..k + 1])| <= |Concat(bufs)|
  {
    ConcatStep(bufs, k);
    ConcatPrefix(bufs, k + 1);
  }

  /** The bytes of the slices before k begin the bytes of the whole buffer. */
  lemma ConcatPrefix(bufs: seq<seq<u8>>, k: nat)
    requires k <= |bufs|
    ensures Concat(bufs) == Concat(bufs[..k]) + Concat(bufs[k..])
  {
    assert bufs == bufs[..k] + bufs[k..];
    ConcatAppend(bufs[..k], bufs[k..]);
  }

  /** Prefix sums never decrease. */
  lemma {:induction false} SumPrefixGrows(xs: seq<nat>, i: nat, j: nat)
    requires i <= j <= |xs|
    ensures Sum(xs[..i]) <= Sum(xs[..j])
  {
    if i < j {
      SumPrefixGrows(xs, i, j - 1);
      assert xs[..j] == xs[..j - 1] + [xs[j - 1]];
      SumAppend(xs[..j - 1], [xs[j - 1]]);
    }
  }

  lemma {:induction false} SumZero(xs: seq<nat>)
    ensures Sum(xs) == 0 <==> forall k :: 0 <= k < |xs| ==> xs[k] == 0
  {
    if |xs| > 0 {
      SumZero(xs[1..]);
      assert forall k :: 1 <= k < |xs| ==> xs[k] == xs[1..][k - 1];
    }
  }

  /** UserBuffer::len: the lengths of the slices added up, the number of bytes it spans. */
  function Len(ub: UserBuffer): (n: nat)
    ensures n == |Concat(ub.buffers)|
  {
    ConcatLength(ub.buffers);
    Sum(Lengths(ub.buffers))
  }

  /** UserBuffer::is_empty: len() == 0, which holds exactly when every slice is empty. */
  function IsEmpty(ub: UserBuffer): (b: bool)
    ensures b <==> forall k :: 0 <= k < |ub.buffers| ==> |ub.buffers[k]| == 0
  {
    SumZero(Lengths(ub.buffers));
    Len(ub) == 0
  }

  // ---------------------------------------------------------------------
  // UserBufferIterator
  // ---------------------------------------------------------------------

  /** The byte a `*mut u8` item points to: byte `index` of slice `slice`. */
  datatype Pos = Pos(slice: nat, index: nat)

  /** `a` comes strictly before `b`, slice by slice and within a slice by index. */
  predicate Before(a: Pos, b: Pos) {
    a.slice < b.slice || (a.slice == b.slice && a.index < b.index)
  }

  /** The positions from byte `j` of slice `i` to the end, slice by slice, in order. */
  function PositionsFrom(bufs: seq<seq<u8>>, i: nat, j: nat): seq<Pos>
    decreases |bufs| - i, if i < |bufs| then |bufs[i]| - j else 0
  {
    if i >= |bufs| then []
    else if j >= |bufs[i]| then PositionsFrom(bufs, i + 1, 0)
    else [Pos(i, j)] + PositionsFrom(bufs, i, j + 1)
  }

  /** The positions left from (i, j) are exactly the bytes at or after it. */
  lemma {:induction false} PositionsMembers(bufs: seq<seq<u8>>, i: nat, j: nat, p: Pos)
    ensures p in PositionsFrom(bufs, i, j) <==>
      p.slice < |bufs| && p.index < |bufs[p.slice]| && (p.slice > i || (p.slice == i && p.index >= j))
    decreases |bufs| - i, if i < |bufs| then |bufs[i]| - j else 0
  {
    if i < |bufs| {
      if j >= |bufs[i]| {
        PositionsMembers(bufs, i + 1, 0, p);
      } else {
        PositionsMembers(bufs, i, j + 1, p);
      }
    }
  }

  /** Each position comes strictly after the ones before it. */
  predicate Ascending(ps: seq<Pos>) {
    forall a, b :: 0 <= a < b < |ps| ==> Before(ps[a], ps[b])
  }

  /** The positions come in strictly increasing order. */
  lemma {:induction false} PositionsOrdered(bufs: seq<seq<u8>>, i: nat, j: nat)
    ensures Ascending(PositionsFrom(bufs, i, j))
    decreases |bufs| - i, if i < |bufs| then |bufs[i]| - j else 0
  {
    if i < |bufs| {
      if j >= |bufs[i]| {
        PositionsOrdered(bufs, i + 1, 0);
      } else {
        PositionsOrdered(bufs, i, j + 1);
        var ps := PositionsFrom(bufs, i, j);
        var rest := PositionsFrom(bufs, i, j + 1);
        assert ps == [Pos(i, j)] + rest;
        forall a, b | 0 <= a < b < |ps|
          ensures Before(ps[a], ps[b])
        {
          assert ps[b] == rest[b - 1];
          if a == 0 {
            PositionsMembers(bufs, i, j + 1, rest[b - 1]);
          } else {
            assert ps[a] == rest[a - 1];
          }
        }
      }
    }
  }

  /** From (i, j) there are as many positions left as bytes from there on. */
  lemma {:induction false} PositionsCount(bufs: seq<seq<u8>>, i: nat, j: nat)
    requires i < |bufs| && j <= |bufs[i]|
    ensures |PositionsFrom(bufs, i, j)| + j == Sum(Lengths(bufs[i..]))
    decreases |bufs| - i, |bufs[i]| - j
  {
    assert Lengths(bufs[i..])[1..] == Lengths(bufs[i + 1..]);
    if j == |bufs[i]| {
      if i + 1 < |bufs| {
        PositionsCount(bufs, i + 1, 0);
      } else {
        assert Lengths(bufs[i + 1..]) == [];
      }
    } else {
      PositionsCount(bufs, i, j + 1);
    }
  }

  /**
   * The iterator yields each byte of the buffer once, slice by slice and
   * in order, and as many items as len() counts.
   */
  lemma AllPositions(ub: UserBuffer)
    ensures var ps := PositionsFrom(ub.buffers, 0, 0);
      && |ps| == Len(ub)
      && (forall p :: p in ps <==> p.slice < |ub.buffers| && p.index < |ub.buffers[p.slice]|)
      && Ascending(ps)
  {
    var bufs := ub.buffers;
    if |bufs| > 0 {
      PositionsCount(bufs, 0, 0);
      assert bufs[0..] == bufs;
    }
    forall p ensures p in PositionsFrom(bufs, 0, 0) <==> p.slice < |bufs| && p.index < |bufs[p.slice]| {
      PositionsMembers(bufs, 0, 0, p);
    }
    PositionsOrdered(bufs, 0, 0);
  }

  /** UserBufferIterator over the slices it took from a UserBuffer. */
  class UserBufferIterator {
    const buffers: seq<seq<u8>>
    var current: nat
    var inner: nat

    /**
     * `inner` is a byte of the current slice. Indexing an empty slice
     * panics in the source, so every slice is non-empty.
     */
    ghost predicate Valid()
      reads this
    {
      && (forall k :: 0 <= k < |buffers| ==> |buffers[k]| > 0)
      && current <= |buffers|
      && (current < |buffers| ==> inner < |buffers[current]|)
    }

    /** The positions still to be yielded. */
    ghost function Remaining(): seq<Pos>
      reads this
    {
      PositionsFrom(buffers, current, inner)
    }

    /** UserBuffer::into_iter. */
    constructor (ub: UserBuffer)
      requires forall k :: 0 <= k < |ub.buffers| ==> |ub.buffers[k]| > 0
      ensures Valid() && buffers == ub.buffers
      ensures Remaining() == PositionsFrom(ub.buffers, 0, 0)
    {
      buffers := ub.buffers;
      current := 0;
      inner := 0;
    }

    /** UserBufferIterator::next: the next position, or None at the end. */
    method Next() returns (r: Option<Pos>)
      requires Valid()
      modifies this
      ensures Valid()
      ensures old(Remaining()) == [] ==> r.None? && current == old(current) && inner == old(inner)
      ensures old(Remaining()) != [] ==> r == Some(old(Remaining())[0]) && Remaining() == old(Remaining())[1..]
    {
      if current >= |buffers| {
        return None;
      }
      assert Remaining() == [Pos(current, inner)] + PositionsFrom(buffers, current, inner + 1);
      r := Some(Pos(current, inner));
      inner := inner + 1;
      if inner >= |buffers[current]| {
        assert PositionsFrom(buffers, current, inner) == PositionsFrom(buffers, current + 1, 0);
        current := current + 1;
        inner := 0;
      }
    }
  }

  /** `for p in ub`: the items the iterator yields, collected until it is exhausted. */
  method CollectPositions(ub: UserBuffer) returns (items: seq<Pos>)
    requires forall k :: 0 <= k < |ub.buffers| ==> |ub.buffers[k]| > 0
    ensures items == PositionsFrom(ub.buffers, 0, 0)
    ensures |items| == Len(ub)
  {
    var it := new UserBufferIterator(ub);
    items := [];
    while true
      invariant it.Valid() && it.buffers == ub.buffers
      invariant items + it.Remaining() == PositionsFrom(ub.buffers, 0, 0)
      decreases |it.Remaining()|
    {
      ghost var rest := it.Remaining();
      var r := it.Next();
      if r.None? {
        break;
      }
      items := items + [r.value];
      assert items + it.Remaining() == (items[..|items| - 1] + [rest[0]]) + rest[1..];
    }
    AllPositions(ub);
  }
}
