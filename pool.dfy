/** mu_pool: a pool of fixed-size slots handed out and taken back through
    an intrusive free list.  Slot i is the address item_store + i * item_size;
    the model names it by i, and keeps the free list as the sequence of slot
    indices from the list head onwards. */
module MuPool {
  import opened MuStore

  /** sizeof(void *) on a 64-bit target: a free slot must have room for the
      link to the next free slot. */
  const PointerSize: nat := 8

  /** No slot occurs twice. */
  predicate Distinct(s: seq<nat>)
  {
    forall i, j :: 0 <= i < j < |s| ==> s[i] != s[j]
  }

  /** The free list after slots 0, 1, ..., n - 1 have each been pushed in
      turn: the last slot pushed is at the head. */
  function Countdown(n: nat): (r: seq<nat>)
    ensures |r| == n
  {
    if n == 0 then [] else [n - 1] + Countdown(n - 1)
  }

  /** Entry k of the free list after a reset is slot n - 1 - k. */
  lemma {:induction false} CountdownAt(n: nat)
    ensures forall k :: 0 <= k < n ==> Countdown(n)[k] == n - 1 - k
  {
    if n > 0 {
      CountdownAt(n - 1);
    }
  }

  /** Slot i occurs in the free list after a reset once if it is one of
      the n slots and not at all otherwise. */
  lemma {:induction false} SlotOnce(n: nat, i: nat)
    ensures multiset(Countdown(n))[i] == if i < n then 1 else 0
  {
    if n > 0 {
      SlotOnce(n - 1, i);
      var m := multiset(Countdown(n - 1));
      assert multiset(Countdown(n)) == multiset{n - 1} + m;
      assert multiset(Countdown(n))[i] == (if i == n - 1 then 1 else 0) + m[i];
    }
  }

  /** After a reset every one of the n slots is on the free list exactly
      once, and nothing else is. */
  lemma EverySlotOnce(n: nat)
    ensures forall i: nat :: multiset(Countdown(n))[i] == if i < n then 1 else 0
  {
    forall i: nat
      ensures multiset(Countdown(n))[i] == if i < n then 1 else 0
    {
      SlotOnce(n, i);
    }
  }

  /** The free list after a reset holds distinct slots, so n allocations in
      a row hand out n different slots, starting from slot n - 1. */
  lemma CountdownDistinct(n: nat)
    ensures Distinct(Countdown(n))
    ensures n > 0 ==> Countdown(n)[0] == n - 1
  {
    CountdownAt(n);
  }

  class Pool {
    const nItems: nat
    const itemSize: nat
    var freeList: seq<nat>

    ghost predicate Valid()
      reads this
    {
      itemSize >= PointerSize && forall k :: 0 <= k < |freeList| ==> freeList[k] < nItems
    }

    constructor (nItems: nat, itemSize: nat)
      requires itemSize >= PointerSize
      ensures Valid() && this.nItems == nItems && this.itemSize == itemSize
    {
      this.nItems := nItems;
      this.itemSize := itemSize;
      freeList := [];
    }

    /** mu_pool_init: NULL when a slot is too small to hold a link;
        otherwise a pool whose free list is built by a reset. */
    static method Init(nItems: nat, itemSize: nat) returns (p: Pool?)
      ensures p == null <==> itemSize < PointerSize
      ensures p != null ==> fresh(p) && p.Valid() && p.freeList == Countdown(nItems)
      ensures p != null ==> p.nItems == nItems && p.itemSize == itemSize
    {
      if itemSize < PointerSize {
        return null;
      }
      var pool := new Pool(nItems, itemSize);
      p := pool.Reset();
    }

    /** mu_pool_alloc: pops the head of the free list; NULL when it is
        empty. */
    method Alloc() returns (item: Option<nat>)
      requires Valid()
      modifies this
      ensures Valid()
      ensures item == None <==> old(freeList) == []
      ensures item.Some? ==> item.value == old(freeList)[0] && item.value < nItems
      ensures item.Some? ==> freeList == old(freeList)[1..]
      ensures item.None? ==> freeList == old(freeList)
      ensures Distinct(old(freeList)) ==> Distinct(freeList)
      ensures Distinct(old(freeList)) && item.Some? ==> item.value !in freeList
    {
      if freeList == [] {
        return None;
      }
      item := Some(freeList[0]);
      freeList := freeList[1..];
    }

    /** mu_pool_free: pushes a slot onto the free list and returns the
        pool; a NULL slot returns NULL and changes nothing. */
    method Free(item: Option<nat>) returns (p: Pool?)
      requires Valid()
      requires item.Some? ==> item.value < nItems
      modifies this
      ensures Valid()
      ensures p == null <==> item.None?
      ensures p != null ==> p == this
      ensures item.None? ==> freeList == old(freeList)
      ensures item.Some? ==> freeList == [item.value] + old(freeList)
      ensures item.Some? && Distinct(old(freeList)) && item.value !in old(freeList) ==> Distinct(freeList)
    {
      if item.None? {
        return null;
      }
      freeList := [item.value] + freeList;
      return this;
    }

    /** mu_pool_reset: empties the free list, then frees slots 0 to
        n_items - 1 in that order. */
    method Reset() returns (p: Pool)
      requires Valid()
      modifies this
      ensures Valid() && p == this && freeList == Countdown(nItems)
    {
      freeList := [];
      var i := 0;
      while i < nItems
        invariant i <= nItems && Valid() && freeList == Countdown(i)
      {
        var _ := Free(Some(i));
        i := i + 1;
      }
      return this;
    }
  }
}
