/** mu_pqueue: the circular FIFO of mu_queue over an array of pointer
    values.  Any value may be queued, NULL included; the indices obey
    tail == (head + count) % capacity as in the record queue. */
module MuPQueue {
  import opened MuStore
  import opened Ring

  class PQueue<P(!new)> {
    const store: array<P>
    const capacity: nat
    var count: nat
    var head: nat
    var tail: nat

    ghost predicate Valid()
      reads this
    {
      0 < capacity <= store.Length && count <= capacity
      && head < capacity && tail == Wrap(head + count, capacity)
    }

    /** The queued pointers, oldest first. */
    function Contents(): (r: seq<P>)
      requires Valid()
      reads this, store
      ensures |r| == count <= capacity
    {
      Window(store[..capacity], head, count)
    }

    constructor (store: array<P>, capacity: nat)
      requires 0 < capacity <= store.Length
      ensures Valid() && Contents() == [] && head == 0 && tail == 0
      ensures this.store == store && this.capacity == capacity
    {
      this.store := store;
      this.capacity := capacity;
      count := 0;
      head := 0;
      tail := 0;
    }

    /** mu_pqueue_init: NULL for a missing array or no slots; otherwise an
        empty queue with head and tail at slot 0. */
    static method Init(store: array?<P>, nItems: nat) returns (q: PQueue?<P>)
      requires store != null ==> nItems <= store.Length
      ensures q == null <==> store == null || nItems == 0
      ensures q != null ==> fresh(q) && q.Valid() && q.Contents() == [] && q.head == 0 && q.tail == 0
      ensures q != null ==> q.store == store && q.capacity == nItems
    {
      if store == null || nItems == 0 {
        return null;
      }
      q := new PQueue(store, nItems);
    }

    /** mu_pqueue_capacity: 0 for a NULL queue. */
    static function Capacity(q: PQueue?<P>): (c: nat)
      reads q
      ensures q != null && q.Valid() ==> c > 0
      ensures q == null ==> c == 0
      ensures q != null ==> c == q.capacity
    {
      if q == null then 0 else q.capacity
    }

    /** mu_pqueue_count: the number of queued pointers, 0 for a NULL queue. */
    static function Count(q: PQueue?<P>): (c: nat)
      requires q != null ==> q.Valid()
      reads q, if q == null then {} else {q.store}
      ensures q != null ==> c == |q.Contents()|
      ensures q == null ==> c == 0
    {
      if q == null then 0 else q.count
    }

    /** mu_pqueue_is_empty: a NULL queue counts as empty. */
    static function IsEmpty(q: PQueue?<P>): (b: bool)
      requires q != null ==> q.Valid()
      reads q, if q == null then {} else {q.store}
      ensures b <==> q == null || q.Contents() == []
    {
      q == null || q.count == 0
    }

    /** mu_pqueue_is_full: a NULL queue counts as full too. */
    static function IsFull(q: PQueue?<P>): (b: bool)
      requires q != null ==> q.Valid()
      reads q, if q == null then {} else {q.store}
      ensures b <==> q == null || |q.Contents()| == q.capacity
    {
      q == null || q.count >= q.capacity
    }

    /** head and tail name the same slot exactly when the queue is empty
        or full. */
    lemma HeadMeetsTail()
      requires Valid()
      ensures head == tail <==> Contents() == [] || |Contents()| == capacity
    {
      TailMeetsHead(head, count, capacity);
    }

    /** mu_pqueue_clear: forgets every pointer and rewinds both indices. */
    method Clear() returns (err: Err)
      requires Valid()
      modifies this
      ensures Valid() && err == ErrNone && Contents() == []
      ensures head == 0 && tail == 0
    {
      count := 0;
      head := 0;
      tail := 0;
      return ErrNone;
    }

    /** mu_pqueue_put: stores a pointer value, NULL included, in the tail
        slot and advances tail.  FULL is the only failure. */
    method Put(item: P) returns (err: Err)
      requires Valid()
      modifies this, store
      ensures Valid()
      ensures err == ErrFull <==> |old(Contents())| == capacity
      ensures err == ErrNone <==> |old(Contents())| < capacity
      ensures err == ErrNone ==> Contents() == old(Contents()) + [item]
      ensures err == ErrNone ==> store[..] == old(store[..])[old(tail) := item]
      ensures err == ErrNone ==> head == old(head) && tail == Wrap(old(tail) + 1, capacity)
      ensures err != ErrNone ==> unchanged(this, store)
    {
      if count >= capacity {
        return ErrFull;
      }
      ghost var buf := store[..capacity];
      WindowPut(buf, head, count, item);
      var next := Next(tail, capacity);
      store[tail] := item;
      assert store[..capacity] == buf[tail := item];
      tail := next;
      count := count + 1;
      return ErrNone;
    }

    /** mu_pqueue_get: removes the oldest pointer and hands it out.  PARAM
        without an output location is checked before EMPTY. */
    method Get(hasOut: bool) returns (err: Err, item: Option<P>)
      requires Valid()
      modifies this
      ensures Valid()
      ensures err == ErrParam <==> !hasOut
      ensures err == ErrEmpty <==> hasOut && old(Contents()) == []
      ensures err == ErrNone <==> hasOut && old(Contents()) != []
      ensures err == ErrNone ==> Contents() == old(Contents())[1..] && item == Some(old(Contents())[0])
      ensures err != ErrNone ==> item == None
      ensures err == ErrNone ==> head == Wrap(old(head) + 1, capacity) && tail == old(tail)
      ensures err != ErrNone ==> unchanged(this)
    {
      if !hasOut {
        return ErrParam, None;
      }
      if count == 0 {
        return ErrEmpty, None;
      }
      WindowGet(store[..capacity], head, count);
      var next := Next(head, capacity);
      item := Some(store[head]);
      head := next;
      count := count - 1;
      err := ErrNone;
    }

    /** mu_pqueue_peek: the oldest pointer, leaving the queue as it is.
        PARAM without an output location, then EMPTY. */
    method Peek(hasOut: bool) returns (err: Err, item: Option<P>)
      requires Valid()
      ensures err == ErrParam <==> !hasOut
      ensures err == ErrEmpty <==> hasOut && Contents() == []
      ensures err == ErrNone <==> item.Some?
      ensures err == ErrNone <==> hasOut && Contents() != []
      ensures item.Some? ==> Contents() != [] && item.value == Contents()[0]
    {
      if !hasOut {
        return ErrParam, None;
      }
      if count == 0 {
        return ErrEmpty, None;
      }
      WindowGet(store[..capacity], head, count);
      return ErrNone, Some(store[head]);
    }
  }
}
