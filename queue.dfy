/** mu_queue: a circular FIFO of fixed-size records in a caller-supplied
    array.  The control block keeps the index of the oldest record (head),
    the slot the next record goes to (tail) and the number of records, with
    tail == (head + count) % capacity; the records are the count slots from
    head onwards, wrapping at the capacity. */
module MuQueue {
  import opened MuStore
  import opened Ring

  class Queue<T(!new)> {
    const store: array<T>
    const capacity: nat
    const itemSize: nat
    var count: nat
    var head: nat
    var tail: nat

    ghost predicate Valid()
      reads this
    {
      0 < capacity <= store.Length && itemSize > 0 && count <= capacity
      && head < capacity && tail == Wrap(head + count, capacity)
    }

    /** The queued records, oldest first. */
    function Contents(): (r: seq<T>)
      requires Valid()
      reads this, store
      ensures |r| == count <= capacity
    {
      Window(store[..capacity], head, count)
    }

    constructor (store: array<T>, capacity: nat, itemSize: nat)
      requires 0 < capacity <= store.Length && itemSize > 0
      ensures Valid() && Contents() == [] && head == 0 && tail == 0
      ensures this.store == store && this.capacity == capacity && this.itemSize == itemSize
    {
      this.store := store;
      this.capacity := capacity;
      this.itemSize := itemSize;
      count := 0;
      head := 0;
      tail := 0;
    }

    /** mu_queue_init: NULL for a missing array, no slots or a zero record
        size; otherwise an empty queue with head and tail at slot 0. */
    static method Init(store: array?<T>, nItems: nat, itemSize: nat) returns (q: Queue?<T>)
      requires store != null ==> nItems <= store.Length
      ensures q == null <==> store == null || nItems == 0 || itemSize == 0
      ensures q != null ==> fresh(q) && q.Valid() && q.Contents() == [] && q.head == 0 && q.tail == 0
      ensures q != null ==> q.store == store && q.capacity == nItems && q.itemSize == itemSize
    {
      if store == null || nItems == 0 || itemSize == 0 {
        return null;
      }
      q := new Queue(store, nItems, itemSize);
    }

    /** mu_queue_capacity: 0 for a NULL queue. */
    static function Capacity(q: Queue?<T>): (c: nat)
      reads q
      ensures q != null && q.Valid() ==> c > 0
      ensures q == null ==> c == 0
      ensures q != null ==> c == q.capacity
    {
      if q == null then 0 else q.capacity
    }

    /** mu_queue_count: the number of queued records, 0 for a NULL queue. */
    static function Count(q: Queue?<T>): (c: nat)
      requires q != null ==> q.Valid()
      reads q, if q == null then {} else {q.store}
      ensures q != null ==> c == |q.Contents()|
      ensures q == null ==> c == 0
    {
      if q == null then 0 else q.count
    }

    /** mu_queue_is_empty: a NULL queue counts as empty. */
    static function IsEmpty(q: Queue?<T>): (b: bool)
      requires q != null ==> q.Valid()
      reads q, if q == null then {} else {q.store}
      ensures b <==> q == null || q.Contents() == []
    {
      q == null || q.count == 0
    }

    /** mu_queue_is_full: a NULL queue counts as full too. */
    static function IsFull(q: Queue?<T>): (b: bool)
      requires q != null ==> q.Valid()
      reads q, if q == null then {} else {q.store}
      ensures b <==> q == null || |q.Contents()| == q.capacity
    {
      q == null || q.count >= q.capacity
    }

    /** head and tail name the same slot exactly when the queue is empty
        or full. */
    lemma HeadMeetsTail()
      requires Valid()
      ensures head == tail <==> Contents() == [] || |Contents()| == capacity
    {
      TailMeetsHead(head, count, capacity);
    }

    /** mu_queue_clear: forgets every record and rewinds both indices. */
    method Clear() returns (err: Err)
      requires Valid()
      modifies this
      ensures Valid() && err == ErrNone && Contents() == []
      ensures head == 0 && tail == 0
    {
      count := 0;
      head := 0;
      tail := 0;
      return ErrNone;
    }

    /** mu_queue_put: copies a record into the tail slot and advances tail.
        PARAM for a NULL record is checked before FULL. */
    method Put(item: Option<T>) returns (err: Err)
      requires Valid()
      modifies this, store
      ensures Valid()
      ensures err == ErrParam <==> item.None?
      ensures err == ErrFull <==> item.Some? && |old(Contents())| == capacity
      ensures err == ErrNone <==> item.Some? && |old(Contents())| < capacity
      ensures err == ErrNone ==> item.Some? && Contents() == old(Contents()) + [item.value]
      ensures err == ErrNone ==> store[..] == old(store[..])[old(tail) := item.value]
      ensures err == ErrNone ==> head == old(head) && tail == Wrap(old(tail) + 1, capacity)
      ensures err != ErrNone ==> unchanged(this, store)
    {
      if item.None? {
        return ErrParam;
      }
      if count >= capacity {
        return ErrFull;
      }
      ghost var buf := store[..capacity];
      WindowPut(buf, head, count, item.value);
      var next := Next(tail, capacity);
      store[tail] := item.value;
      assert store[..capacity] == buf[tail := item.value];
      tail := next;
      count := count + 1;
      return ErrNone;
    }

    /** mu_queue_get: removes the oldest record, handing it out only when
        there is an output location.  EMPTY when nothing is queued. */
    method Get(hasOut: bool) returns (err: Err, item: Option<T>)
      requires Valid()
      modifies this
      ensures Valid()
      ensures err == ErrEmpty <==> old(Contents()) == []
      ensures err == ErrNone <==> old(Contents()) != []
      ensures err == ErrNone ==> Contents() == old(Contents())[1..]
      ensures err == ErrNone && hasOut ==> item == Some(old(Contents())[0])
      ensures err != ErrNone || !hasOut ==> item == None
      ensures err == ErrNone ==> head == Wrap(old(head) + 1, capacity) && tail == old(tail)
      ensures err != ErrNone ==> unchanged(this)
    {
      if count == 0 {
        return ErrEmpty, None;
      }
      WindowGet(store[..capacity], head, count);
      var next := Next(head, capacity);
      item := if hasOut then Some(store[head]) else None;
      head := next;
      count := count - 1;
      err := ErrNone;
    }

    /** mu_queue_peek: a copy of the oldest record, leaving the queue as it
        is.  PARAM without an output location, then EMPTY. */
    method Peek(hasOut: bool) returns (err: Err, item: Option<T>)
      requires Valid()
      ensures err == ErrParam <==> !hasOut
      ensures err == ErrEmpty <==> hasOut && Contents() == []
      ensures err == ErrNone <==> item.Some?
      ensures err == ErrNone <==> hasOut && Contents() != []
      ensures item.Some? ==> Contents() != [] && item.value == Contents()[0]
    {
      if !hasOut {
        return ErrParam, None;
      }
      if count == 0 {
        return ErrEmpty, None;
      }
      WindowGet(store[..capacity], head, count);
      return ErrNone, Some(store[head]);
    }
  }
}
