/** mu_spsc: a ring buffer of pointer values over a store whose size is a
    power of two.  Indices wrap by masking with size - 1; the producer only
    moves tail and the consumer only moves head, so one slot stays unused
    and head == tail means empty.  This is the single-threaded behaviour. */
module MuSpsc {
  import opened Bits
  import opened MuStore
  import opened Ring

  /** mu_spsc_err_t, in the order of its enumeration. */
  datatype SpscErr =
    | SpscNone   // no error
    | SpscEmpty  // read from an empty buffer
    | SpscFull   // write to a full buffer
    | SpscSize   // the store size is not a power of two of at least 2

  /** store_size, mask, head and tail are 16-bit unsigned. */
  const StoreSizeLimit: nat := 0x1_0000

  /** IS_POWER_OF_TWO: n & (n - 1) == 0.  In C, 0 passes too, since
      0 - 1 is -1 and 0 & -1 is 0. */
  function PowerOfTwoMacro(n: nat): bool
  {
    if n == 0 then true else BitAnd(n, n - 1) == 0
  }

  /** i & mask for an index at most one step past the ring, computed as
      the code does: the index wrapped round the ring of mask + 1 slots. */
  method MaskIndex(i: nat, mask: nat) returns (r: nat)
    requires IsPow2(mask + 1) && i < 2 * (mask + 1)
    ensures r == BitAnd(i, mask) && r == Wrap(i, mask + 1)
  {
    r := BitAnd(i, mask);
    MaskIsMod(i, mask + 1);
    WrapIsMod(i, mask + 1);
  }

  /** How many slots tail is ahead of head, going round a ring of the given
      size. */
  function Distance(head: nat, tail: nat, size: nat): (c: nat)
    requires head < size && tail < size
    ensures c < size
  {
    if head <= tail then tail - head else tail + size - head
  }

  /** The items of a ring of slots buf between head and tail, oldest
      first. */
  function RingItems<P>(buf: seq<P>, head: nat, tail: nat): (r: seq<P>)
    requires head < |buf| && tail < |buf|
    ensures |r| == Distance(head, tail, |buf|)
  {
    Window(buf, head, Distance(head, tail, |buf|))
  }

  /** A put on a ring of slots buf: FULL exactly when the slot after tail
      is head, which happens when every usable slot is taken; otherwise
      writing the tail slot and advancing tail appends the item. */
  lemma RingPut<P>(buf: seq<P>, head: nat, tail: nat, item: P)
    requires head < |buf| && tail < |buf|
    ensures Wrap(tail + 1, |buf|) == head <==> |RingItems(buf, head, tail)| == |buf| - 1
    ensures Wrap(tail + 1, |buf|) != head ==>
      RingItems(buf[tail := item], head, Wrap(tail + 1, |buf|)) == RingItems(buf, head, tail) + [item]
  {
    var n := Distance(head, tail, |buf|);
    assert tail == Wrap(head + n, |buf|);
    if n < |buf| - 1 {
      WindowPut(buf, head, n, item);
    }
  }

  /** A get on a ring of slots buf that is not empty: the head slot holds
      the oldest item, and advancing head drops it. */
  lemma RingGet<P>(buf: seq<P>, head: nat, tail: nat)
    requires head < |buf| && tail < |buf| && head != tail
    ensures RingItems(buf, head, tail)[0] == buf[head]
    ensures RingItems(buf, Wrap(head + 1, |buf|), tail) == RingItems(buf, head, tail)[1..]
  {
    assert Distance(Wrap(head + 1, |buf|), tail, |buf|) == Distance(head, tail, |buf|) - 1;
    WindowGet(buf, head, Distance(head, tail, |buf|));
  }

  class Spsc<P(!new)> {
    const store: array<P>
    const mask: nat
    var head: nat
    var tail: nat

    ghost predicate Valid()
      reads this
    {
      1 <= mask && mask < StoreSizeLimit && IsPow2(mask + 1) && mask + 1 <= store.Length
      && head <= mask && tail <= mask
    }

    /** The number of slots the indices run over: store_size. */
    function Size(): nat
    {
      mask + 1
    }

    /** The number of items between head and tail, going round the ring. */
    function Count(): (c: nat)
      requires Valid()
      reads this
      ensures c <= mask
    {
      Distance(head, tail, Size())
    }

    /** The buffered items, oldest first. */
    function Contents(): (r: seq<P>)
      requires Valid()
      reads this, store
      ensures |r| == Count()
    {
      RingItems(store[..Size()], head, tail)
    }

    /** The count is (tail - head) & mask, the distance in 16-bit
        arithmetic reduced by the mask. */
    lemma CountIsMasked()
      requires Valid()
      ensures Count() == BitAnd(tail + Size() - head, mask)
    {
      var d := tail + Size() - head;
      MaskIsMod(d, Size());
      WrapIsMod(d, Size());
    }

    /** tail is the slot after the last item. */
    lemma TailAfterItems()
      requires Valid()
      ensures tail == (head + Count()) % Size()
    {
      WrapIsMod(head + Count(), Size());
    }

    /** The slot after tail is head exactly when every usable slot holds an
        item. */
    lemma NextTailIsHead()
      requires Valid()
      ensures (tail + 1) % Size() == head <==> Count() == mask
    {
      WrapIsMod(tail + 1, Size());
    }

    constructor (store: array<P>, mask: nat)
      requires 1 <= mask < StoreSizeLimit && IsPow2(mask + 1) && mask + 1 <= store.Length
      ensures Valid() && this.store == store && this.mask == mask
    {
      this.store := store;
      this.mask := mask;
      head := 0;
      tail := 0;
    }

    /** mu_spsc_init: SIZE unless the store size is at least 2 and a power
        of two; otherwise mask is the size minus one and the buffer starts
        empty. */
    static method Init(store: array<P>, storeSize: nat) returns (err: SpscErr, q: Spsc?<P>)
      requires storeSize < StoreSizeLimit && storeSize <= store.Length
      ensures err == SpscSize <==> storeSize < 2 || !IsPow2(storeSize)
      ensures err == SpscNone <==> q != null
      ensures err == SpscSize || err == SpscNone
      ensures q != null ==> fresh(q) && q.Valid() && q.store == store && q.mask == storeSize - 1
      ensures q != null ==> q.head == 0 && q.tail == 0 && q.Contents() == []
    {
      if storeSize < 2 {
        return SpscSize, null;
      }
      PowerOfTwoTest(storeSize);
      if !PowerOfTwoMacro(storeSize) {
        return SpscSize, null;
      }
      q := new Spsc(store, storeSize - 1);
      err := q.Reset();
    }

    /** mu_spsc_reset: both indices back to slot 0, which empties the
        buffer. */
    method Reset() returns (err: SpscErr)
      requires Valid()
      modifies this
      ensures Valid() && err == SpscNone
      ensures head == 0 && tail == 0 && Contents() == []
    {
      head := 0;
      tail := 0;
      return SpscNone;
    }

    /** mu_spsc_capacity: the mask, one less than the store size, because
        one slot always stays unused. */
    function Capacity(): (c: nat)
      requires Valid()
      reads this, store
      ensures c + 1 == Size()
    {
      mask
    }

    /** mu_spsc_put: FULL when the masked slot after tail is head; otherwise
        the item goes into the tail slot and tail advances. */
    method Put(item: P) returns (err: SpscErr)
      requires Valid()
      modifies this, store
      ensures Valid()
      ensures err == SpscFull <==> BitAnd(old(tail) + 1, mask) == old(head)
      ensures err == SpscFull <==> |old(Contents())| == Capacity()
      ensures err == SpscFull || err == SpscNone
      ensures err == SpscNone ==> Contents() == old(Contents()) + [item]
      ensures err == SpscNone ==> store[..] == old(store[..])[old(tail) := item]
      ensures err == SpscNone ==> head == old(head) && tail == BitAnd(old(tail) + 1, mask)
      ensures err == SpscNone ==> tail == Wrap(old(tail) + 1, Size())
      ensures err == SpscFull ==> unchanged(this, store)
    {
      var nextTail := MaskIndex(tail + 1, mask);
      RingPut(store[..Size()], head, tail, item);
      if nextTail == head {
        return SpscFull;
      }
      ghost var buf := store[..Size()];
      store[tail] := item;
      assert store[..Size()] == buf[tail := item];
      tail := nextTail;
      return SpscNone;
    }

    /** mu_spsc_get: EMPTY when head is tail, with None standing for the
        NULL the code writes out; otherwise the item in the head slot, and
        head advances. */
    method Get() returns (err: SpscErr, item: Option<P>)
      requires Valid()
      modifies this
      ensures Valid()
      ensures err == SpscEmpty <==> old(head) == old(tail)
      ensures err == SpscEmpty <==> old(Contents()) == []
      ensures err == SpscEmpty || err == SpscNone
      ensures err == SpscEmpty ==> item == None && unchanged(this)
      ensures err == SpscNone ==> item == Some(old(Contents())[0]) && Contents() == old(Contents())[1..]
      ensures err == SpscNone ==> tail == old(tail) && head == BitAnd(old(head) + 1, mask)
      ensures err == SpscNone ==> head == Wrap(old(head) + 1, Size())
    {
      if head == tail {
        return SpscEmpty, None;
      }
      ghost var buf := store[..Size()];
      RingGet(buf, head, tail);
      item := Some(store[head]);
      var next := MaskIndex(head + 1, mask);
      head := next;
      err := SpscNone;
    }
  }
}
