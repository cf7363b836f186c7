/**
 * The process-wide message id counter of the engine message envelope.
 *
 * The source keeps one 32-bit `Int` counter that starts at -1; every call of
 * `nextId` increments it and returns the new value.  A 32-bit increment past
 * the largest `Int` wraps around to the smallest one, and that wrap-around is
 * modelled explicitly here.
 */
module MessageIds {

  const MIN_INT32: int := -0x8000_0000
  const MAX_INT32: int := 0x7fff_ffff

  /** A Kotlin/JVM `Int`. */
  newtype int32 = x: int | -0x8000_0000 <= x < 0x8000_0000

  /** The value the counter holds before any id has been handed out. */
  const INITIAL_COUNT: int32 := -1

  /** Reduces an unbounded integer to the 32-bit two's-complement value it denotes. */
  function Wrap32(x: int): (r: int)
    ensures MIN_INT32 <= r <= MAX_INT32
    ensures (r - x) % 0x1_0000_0000 == 0
  {
    (x + 0x8000_0000) % 0x1_0000_0000 - 0x8000_0000
  }

  /** On one period starting at zero, wrapping is the identity below 2^31 and a shift by 2^32 above. */
  lemma Wrap32OnPeriod(k: int)
    requires 0 <= k < 0x1_0000_0000
    ensures Wrap32(k) == if k < 0x8000_0000 then k else k - 0x1_0000_0000
  {
  }

  /** Wrapping commutes with adding one. */
  lemma Wrap32Step(k: int)
    ensures Wrap32(Wrap32(k) + 1) == Wrap32(k + 1)
  {
  }

  /** The `idCount++` of a 32-bit counter: one more, modulo 2^32. */
  function Successor(x: int32): (y: int32)
    ensures y as int == Wrap32(x as int + 1)
  {
    if x as int == MAX_INT32 then MIN_INT32 as int32 else x + 1
  }

  /**
   * The ids that the first `n` calls of `nextId` return, in call order,
   * defined step by step from the counter's starting value.
   */
  ghost function FirstIds(n: nat): (ids: seq<int32>)
    ensures |ids| == n
    ensures forall k :: 0 <= k < n ==> ids[k] as int == Wrap32(k)
  {
    if n == 0 then []
    else
      var earlier := FirstIds(n - 1);
      var before: int32 := if n == 1 then INITIAL_COUNT else earlier[n - 2];
      Wrap32Step(n - 2);
      earlier + [Successor(before)]
  }

  /** The first id handed out is 0, and up to 2^31 ids the k-th id is k. */
  lemma FirstIdsCountFromZero(n: nat)
    requires n <= 0x8000_0000
    ensures forall k :: 0 <= k < n ==> FirstIds(n)[k] as int == k
  {
    forall k | 0 <= k < n ensures FirstIds(n)[k] as int == k {
      Wrap32OnPeriod(k);
    }
  }

  /** Up to 2^31 calls, successive ids are strictly increasing. */
  lemma FirstIdsIncreasing(n: nat)
    requires n <= 0x8000_0000
    ensures forall i, j :: 0 <= i < j < n ==> FirstIds(n)[i] < FirstIds(n)[j]
  {
    FirstIdsCountFromZero(n);
  }

  /** Up to 2^32 calls (one full period of the counter), no id is handed out twice. */
  lemma FirstIdsDistinct(n: nat)
    requires n <= 0x1_0000_0000
    ensures forall i, j :: 0 <= i < j < n ==> FirstIds(n)[i] != FirstIds(n)[j]
  {
    var ids := FirstIds(n);
    forall i, j | 0 <= i < j < n ensures ids[i] != ids[j] {
      Wrap32OnPeriod(i);
      Wrap32OnPeriod(j);
    }
  }

  /** The call after the 2^31-th one wraps around to the smallest `Int`. */
  lemma FirstIdsWrapAround()
    ensures FirstIds(0x8000_0001)[0x8000_0000] as int == MIN_INT32
    ensures FirstIds(0x8000_0001)[0x8000_0000] < FirstIds(0x8000_0001)[0]
  {
    Wrap32OnPeriod(0);
    Wrap32OnPeriod(0x8000_0000);
  }

  /** The companion object's `idCount` field together with `nextId`. */
  class IdCounter {
    var count: int32
    /** The ids handed out so far, oldest first. */
    ghost var Issued: seq<int32>

    ghost predicate Valid()
      reads this
    {
      Issued == FirstIds(|Issued|) &&
      count as int == Wrap32(|Issued| - 1)
    }

    constructor ()
      ensures Valid() && Issued == [] && count == INITIAL_COUNT
    {
      count := INITIAL_COUNT;
      Issued := [];
    }

    /** Increments the counter and returns its new value. */
    method NextId() returns (id: int32)
      requires Valid()
      modifies this
      ensures Valid()
      ensures id == Successor(old(count)) && count == id
      ensures Issued == old(Issued) + [id]
    {
      ghost var n := |Issued|;
      count := Successor(count);
      id := count;
      Wrap32Step(n - 1);
      assert n > 0 ==> Issued[n - 1] == old(count);
      Issued := Issued + [id];
    }
  }
}
