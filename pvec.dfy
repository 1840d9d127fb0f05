/** mu_pvec: a vector of pointers kept in a caller-supplied array of
    pointers.  The stored values are opaque: a pointer may be NULL and the
    vector never looks through it, except through the caller's comparator
    or predicate. */
module MuPVec {
  import opened MuStore
  import opened Slots
  import opened SortedInsert
  import MuSort

  /** SIZE_MAX on a 64-bit target: count - 1 when count is 0. */
  const SizeMax: nat := 0xFFFF_FFFF_FFFF_FFFF

  class PVec<P(!new)> {
    const store: array<P>
    const capacity: nat
    var count: nat

    ghost predicate Valid()
      reads this
    {
      0 < capacity <= store.Length && count <= capacity
    }

    /** The pointers in use, in order. */
    function Contents(): (r: seq<P>)
      requires Valid()
      reads this, store
      ensures |r| == count <= capacity
    {
      store[..count]
    }

    constructor (store: array<P>, capacity: nat)
      requires 0 < capacity <= store.Length
      ensures Valid() && Contents() == []
      ensures this.store == store && this.capacity == capacity
    {
      this.store := store;
      this.capacity := capacity;
      count := 0;
    }

    /** mu_pvec_init: NULL for a missing array or a zero capacity, otherwise
        an empty vector over the array. */
    static method Init(store: array?<P>, capacity: nat) returns (v: PVec?<P>)
      requires store != null ==> capacity <= store.Length
      ensures v == null <==> store == null || capacity == 0
      ensures v != null ==> fresh(v) && v.Valid() && v.Contents() == []
      ensures v != null ==> v.store == store && v.capacity == capacity
    {
      if store == null || capacity == 0 {
        return null;
      }
      v := new PVec(store, capacity);
    }

    /** mu_pvec_capacity: 0 for a NULL vector. */
    static function Capacity(v: PVec?<P>): (c: nat)
      reads v
      ensures v != null && v.Valid() ==> c > 0
      ensures v == null ==> c == 0
      ensures v != null ==> c == v.capacity
    {
      if v == null then 0 else v.capacity
    }

    /** mu_pvec_count: the number of pointers, 0 for a NULL vector. */
    static function Count(v: PVec?<P>): (c: nat)
      requires v != null ==> v.Valid()
      reads v, if v == null then {} else {v.store}
      ensures v != null ==> c == |v.Contents()|
      ensures v == null ==> c == 0
    {
      if v == null then 0 else v.count
    }

    /** mu_pvec_is_empty: a NULL vector counts as empty. */
    static function IsEmpty(v: PVec?<P>): (b: bool)
      requires v != null ==> v.Valid()
      reads v, if v == null then {} else {v.store}
      ensures b <==> v == null || v.Contents() == []
    {
      if v == null then true else v.count == 0
    }

    /** mu_pvec_is_full: a NULL vector counts as not full. */
    static function IsFull(v: PVec?<P>): (b: bool)
      requires v != null ==> v.Valid()
      reads v, if v == null then {} else {v.store}
      ensures b <==> v != null && |v.Contents()| == v.capacity
    {
      if v == null then false else v.count >= v.capacity
    }

    /** mu_pvec_clear: forgets every pointer. */
    method Clear() returns (err: Err)
      requires Valid()
      modifies this
      ensures Valid() && err == ErrNone && Contents() == []
    {
      count := 0;
      return ErrNone;
    }

    /** mu_pvec_ref: the pointer at index.  PARAM when there is no output
        location, INDEX when index is not below the count. */
    method Ref(index: nat, hasOut: bool) returns (err: Err, item: Option<P>)
      requires Valid()
      ensures err == ErrParam <==> !hasOut
      ensures err == ErrIndex <==> hasOut && index >= |Contents()|
      ensures err == ErrNone <==> item.Some?
      ensures err == ErrNone <==> hasOut && index < |Contents()|
      ensures item.Some? ==> index < |Contents()| && item.value == Contents()[index]
    {
      if !hasOut {
        return ErrParam, None;
      }
      if index >= count {
        return ErrIndex, None;
      }
      return ErrNone, Some(store[index]);
    }

    /** mu_pvec_insert: puts a pointer at index and moves the later ones up.
        INDEX beyond the count.  The code checks no capacity at all, not even
        when appending, so a caller must not insert into a full vector. */
    method Insert(index: nat, item: P) returns (err: Err)
      requires Valid()
      requires index <= count ==> count < capacity
      modifies this, store
      ensures Valid()
      ensures err == ErrIndex <==> index > |old(Contents())|
      ensures err == ErrNone <==> index <= |old(Contents())|
      ensures err == ErrNone ==> Contents() == InsertAt(old(Contents()), index, item)
      ensures err != ErrNone ==> Contents() == old(Contents())
      ensures store[count..] == old(store[..])[count..]
    {
      if index > count {
        return ErrIndex;
      }
      ghost var before := store[..];
      if index < count {
        forall k | index < k <= count {
          store[k] := store[k - 1];
        }
      }
      store[index] := item;
      count := count + 1;
      assert forall k :: 0 <= k < count ==> store[k] == InsertAt(before[..count - 1], index, item)[k];
      return ErrNone;
    }

    /** mu_pvec_delete: removes the pointer at index, moving the later ones
        down, and hands it out when there is an output location.  INDEX when
        index is not below the count. */
    method Delete(index: nat, hasOut: bool) returns (err: Err, item: Option<P>)
      requires Valid()
      modifies this, store
      ensures Valid()
      ensures err == ErrIndex <==> index >= |old(Contents())|
      ensures err == ErrNone <==> index < |old(Contents())|
      ensures err == ErrNone ==> Contents() == RemoveAt(old(Contents()), index)
      ensures err == ErrNone && hasOut ==> item == Some(old(Contents())[index])
      ensures err != ErrNone || !hasOut ==> item.None?
      ensures err != ErrNone ==> Contents() == old(Contents())
    {
      if index >= count {
        return ErrIndex, None;
      }
      item := if hasOut then Some(store[index]) else None;
      ghost var before := store[..count];
      if index < count - 1 {
        forall k | index <= k < count - 1 {
          store[k] := store[k + 1];
        }
      }
      count := count - 1;
      assert forall k :: 0 <= k < count ==> store[k] == RemoveAt(before, index)[k];
      return ErrNone, item;
    }

    /** mu_pvec_replace: overwrites the pointer at index.  INDEX when index
        is not below the count. */
    method Replace(index: nat, item: P) returns (err: Err)
      requires Valid()
      modifies store
      ensures Valid()
      ensures err == ErrIndex <==> index >= |old(Contents())|
      ensures err == ErrNone <==> index < |old(Contents())|
      ensures err == ErrNone ==> Contents() == old(Contents())[index := item]
      ensures err != ErrNone ==> Contents() == old(Contents())
    {
      if index >= count {
        return ErrIndex;
      }
      store[index] := item;
      return ErrNone;
    }

    /** mu_pvec_swap: exchanges the pointer at index with the one in the
        caller's location (mu_store_swap_pointers).  PARAM for a NULL
        location, INDEX when index is not below the count. */
    method Swap(index: nat, io: Option<P>) returns (err: Err, out: Option<P>)
      requires Valid()
      modifies store
      ensures Valid()
      ensures err == ErrParam <==> io.None?
      ensures err == ErrIndex <==> io.Some? && index >= |old(Contents())|
      ensures err == ErrNone <==> io.Some? && index < |old(Contents())|
      ensures err == ErrNone ==> Contents() == old(Contents())[index := io.value]
      ensures err == ErrNone ==> out == Some(old(Contents())[index])
      ensures err != ErrNone ==> Contents() == old(Contents()) && out == io
    {
      if io.None? {
        return ErrParam, io;
      }
      if index >= count {
        return ErrIndex, io;
      }
      out := Some(store[index]);
      store[index] := io.value;
      return ErrNone, out;
    }

    /** mu_pvec_push: appends a pointer.  FULL when the count has reached
        the capacity. */
    method Push(item: P) returns (err: Err)
      requires Valid()
      modifies this, store
      ensures Valid()
      ensures err == ErrFull <==> |old(Contents())| == capacity
      ensures err == ErrNone <==> |old(Contents())| < capacity
      ensures err == ErrNone ==> Contents() == old(Contents()) + [item]
      ensures err != ErrNone ==> Contents() == old(Contents())
    {
      if count >= capacity {
        return ErrFull;
      }
      store[count] := item;
      count := count + 1;
      return ErrNone;
    }

    /** mu_pvec_pop: removes the last pointer, handing it out when there is
        an output location; without one the pointer is still removed.  EMPTY
        for an empty vector. */
    method Pop(hasOut: bool) returns (err: Err, item: Option<P>)
      requires Valid()
      modifies this
      ensures Valid()
      ensures err == ErrEmpty <==> old(Contents()) == []
      ensures err == ErrNone <==> old(Contents()) != []
      ensures err == ErrNone ==> Contents() + [old(Contents())[|old(Contents())| - 1]] == old(Contents())
      ensures err == ErrNone && hasOut ==> item == Some(old(Contents())[|old(Contents())| - 1])
      ensures err != ErrNone || !hasOut ==> item.None?
      ensures err != ErrNone ==> Contents() == old(Contents())
    {
      if count == 0 {
        return ErrEmpty, None;
      }
      if hasOut {
        count := count - 1;
        item := Some(store[count]);
      } else {
        count := count - 1;
        item := None;
      }
      assert old(Contents()) == store[..count] + [store[count]];
      return ErrNone, item;
    }

    /** mu_pvec_peek: the last pointer, read through mu_pvec_ref at
        count - 1.  On an empty vector that index wraps around to SIZE_MAX,
        so the result is INDEX; a missing output location gives PARAM
        first. */
    method Peek(hasOut: bool) returns (err: Err, item: Option<P>)
      requires Valid()
      ensures err == ErrParam <==> !hasOut
      ensures err == ErrIndex <==> hasOut && Contents() == []
      ensures err == ErrNone <==> item.Some?
      ensures err == ErrNone <==> hasOut && Contents() != []
      ensures item.Some? ==> Contents() != [] && item.value == Contents()[|Contents()| - 1]
    {
      var index: nat := if count == 0 then SizeMax else count - 1;
      err, item := Ref(index, hasOut);
    }

    /** mu_pvec_find: the first pointer the predicate accepts.  PARAM for a
        missing predicate or output location, NOTFOUND when none is
        accepted. */
    method Find(pred: Option<P -> bool>, hasOut: bool) returns (err: Err, index: Option<nat>)
      requires Valid()
      ensures err == ErrParam <==> pred.None? || !hasOut
      ensures err == ErrNone <==> index.Some?
      ensures err == ErrParam || err == ErrNotFound || err == ErrNone
      ensures err == ErrNone <==>
        pred.Some? && hasOut && exists k :: 0 <= k < |Contents()| && pred.value(Contents()[k])
      ensures err == ErrNotFound <==>
        pred.Some? && hasOut && forall k :: 0 <= k < |Contents()| ==> !pred.value(Contents()[k])
      ensures index.Some? ==> pred.Some? && index.value < |Contents()|
      ensures index.Some? ==> pred.value(Contents()[index.value])
      ensures index.Some? ==> forall k :: 0 <= k < index.value ==> !pred.value(Contents()[k])
    {
      if pred.None? || !hasOut {
        return ErrParam, None;
      }
      var i: nat := 0;
      while i < count
        invariant i <= count
        invariant forall k :: 0 <= k < i ==> !pred.value(store[k])
      {
        if pred.value(store[i]) {
          assert Contents()[i] == store[i];
          return ErrNone, Some(i);
        }
        i := i + 1;
      }
      return ErrNotFound, None;
    }

    /** mu_pvec_rfind: the last pointer the predicate accepts, scanning down
        from the end. */
    method RFind(pred: Option<P -> bool>, hasOut: bool) returns (err: Err, index: Option<nat>)
      requires Valid()
      ensures err == ErrParam <==> pred.None? || !hasOut
      ensures err == ErrNone <==> index.Some?
      ensures err == ErrParam || err == ErrNotFound || err == ErrNone
      ensures err == ErrNone <==>
        pred.Some? && hasOut && exists k :: 0 <= k < |Contents()| && pred.value(Contents()[k])
      ensures err == ErrNotFound <==>
        pred.Some? && hasOut && forall k :: 0 <= k < |Contents()| ==> !pred.value(Contents()[k])
      ensures index.Some? ==> pred.Some? && index.value < |Contents()|
      ensures index.Some? ==> pred.value(Contents()[index.value])
      ensures index.Some? ==> forall k :: index.value < k < |Contents()| ==> !pred.value(Contents()[k])
    {
      if pred.None? || !hasOut {
        return ErrParam, None;
      }
      var i: nat := count;
      while i > 0
        invariant i <= count
        invariant forall k :: i <= k < count ==> !pred.value(store[k])
      {
        i := i - 1;
        if pred.value(store[i]) {
          assert Contents()[i] == store[i];
          return ErrNone, Some(i);
        }
      }
      return ErrNotFound, None;
    }

    /** mu_pvec_sort: heapsort of the pointers in use (mu_store_psort).
        PARAM for a missing comparator; fewer than two pointers are left as
        they are. */
    method Sort(cmp: Option<Cmp<P>>) returns (err: Err)
      requires Valid()
      requires cmp.Some? ==> Comparator(cmp.value)
      modifies store
      ensures Valid()
      ensures err == ErrParam <==> cmp.None?
      ensures err == ErrParam || err == ErrNone
      ensures err == ErrNone ==> Sorted(Contents(), cmp.value)
      ensures multiset(Contents()) == multiset(old(Contents()))
      ensures err == ErrParam || |Contents()| < 2 ==> Contents() == old(Contents())
      ensures store[count..] == old(store[count..])
    {
      if cmp.None? {
        return ErrParam;
      }
      if count < 2 {
        return ErrNone;
      }
      err := MuSort.PSort(store, count, cmp);
    }

    /** mu_pvec_reverse: reverses the pointers in use in place. */
    method Reverse() returns (err: Err)
      requires Valid()
      modifies store
      ensures Valid() && err == ErrNone
      ensures Contents() == Reversed(old(Contents()))
      ensures store[count..] == old(store[count..])
    {
      if count < 2 {
        return ErrNone;
      }
      SwapEnds();
      assert forall k :: 0 <= k < count ==> Contents()[k] == Reversed(old(Contents()))[k];
      return ErrNone;
    }

    /** The loop of mu_pvec_reverse: exchanges the pointers at i and j
        through a temporary and moves both toward the middle. */
    method SwapEnds()
      requires Valid() && count >= 2
      modifies store
      ensures forall k :: 0 <= k < count ==> store[k] == old(store[count - 1 - k])
      ensures forall k :: count <= k < store.Length ==> store[k] == old(store[k])
    {
      var i: nat, j: nat := 0, count - 1;
      while i < j
        invariant i + j == count - 1
        invariant i <= j + 1
        invariant forall k :: 0 <= k < i ==> store[k] == old(store[count - 1 - k])
        invariant forall k :: j < k < count ==> store[k] == old(store[count - 1 - k])
        invariant forall k :: i <= k <= j ==> store[k] == old(store[k])
        invariant forall k :: count <= k < store.Length ==> store[k] == old(store[k])
      {
        var tmp := store[i];
        store[i] := store[j];
        store[j] := tmp;
        i, j := i + 1, j - 1;
      }
    }

    /** mu_pvec_sorted_insert: one scan for the first and the last pointer
        that compares equal to x, then the policy dispatch.  PARAM for a
        missing comparator.  Since mu_pvec_insert never checks the capacity,
        the caller must exclude the insertions that INSERT_FIRST and
        INSERT_LAST with a match can send into a full vector. */
    method SortedInsert(x: P, cmp: Option<Cmp<P>>, policy: InsertPolicy) returns (err: Err)
      requires Valid()
      requires cmp.Some? ==> !Overruns(Contents(), capacity, Decide(Contents(), capacity, x, cmp.value, policy), false)
      modifies this, store
      ensures Valid()
      ensures cmp.None? ==> err == ErrParam && Contents() == old(Contents())
      ensures cmp.Some? ==>
        (err, Contents()) == Outcome(old(Contents()), capacity, x, cmp.value, policy, false)
    {
      if cmp.None? {
        return ErrParam;
      }
      var c := cmp.value;
      ghost var s := Contents();
      var first, last := Scan(x, c);
      if IsUpdate(policy) {
        err := UpdateMatches(x, c, policy, first, last);
      } else if first.Some? && (policy == UpsertFirst || policy == UpsertLast || policy == InsertUnique) {
        err := ReplaceOrReject(x, c, policy, first, last);
      } else if first.Some? && (policy == InsertDuplicate || policy == InsertFirst || policy == InsertLast) {
        err := InsertNextToMatch(x, c, policy, first, last);
      } else if policy == InsertDuplicate {
        err := ErrNotFound;
      } else {
        TakesDefaultPath(s, capacity, x, c, policy);
        err := DefaultInsert(x, c);
      }
    }

    /** UPSERT_FIRST, UPSERT_LAST and INSERT_UNIQUE in mu_pvec_sorted_insert
        when some pointer matches: the slot is written directly. */
    method ReplaceOrReject(x: P, cmp: Cmp<P>, policy: InsertPolicy, first: Option<nat>, last: Option<nat>)
      returns (err: Err)
      requires Valid() && first.Some?
      requires policy == UpsertFirst || policy == UpsertLast || policy == InsertUnique
      requires first == FirstMatch(Contents(), x, cmp) && last == LastMatch(Contents(), x, cmp)
      modifies store
      ensures Valid()
      ensures (err, Contents()) == Outcome(old(Contents()), capacity, x, cmp, policy, false)
    {
      MatchesAgree(Contents(), x, cmp);
      if policy == UpsertFirst {
        store[first.value] := x;
        err := ErrNone;
      } else if policy == UpsertLast {
        store[last.value] := x;
        err := ErrNone;
      } else {
        err := ErrExists;
      }
    }

    /** INSERT_DUPLICATE, INSERT_FIRST and INSERT_LAST in
        mu_pvec_sorted_insert when some pointer matches. */
    method InsertNextToMatch(x: P, cmp: Cmp<P>, policy: InsertPolicy, first: Option<nat>, last: Option<nat>)
      returns (err: Err)
      requires Valid() && first.Some?
      requires policy == InsertDuplicate || policy == InsertFirst || policy == InsertLast
      requires first == FirstMatch(Contents(), x, cmp) && last == LastMatch(Contents(), x, cmp)
      requires !Overruns(Contents(), capacity, Decide(Contents(), capacity, x, cmp, policy), false)
      modifies this, store
      ensures Valid()
      ensures (err, Contents()) == Outcome(old(Contents()), capacity, x, cmp, policy, false)
    {
      NextToMatchOutcome(Contents(), capacity, x, cmp, policy, false);
      if policy == InsertDuplicate && count >= capacity {
        return ErrFull;
      }
      var at := if policy == InsertFirst then first.value else last.value + 1;
      err := Insert(at, x);
    }

    /** The default insertion of mu_pvec_sorted_insert: FULL on a full
        vector, otherwise an insertion before the first pointer that
        compares greater than x. */
    method DefaultInsert(x: P, cmp: Cmp<P>) returns (err: Err)
      requires Valid()
      modifies this, store
      ensures Valid()
      ensures |old(Contents())| >= capacity ==> err == ErrFull && Contents() == old(Contents())
      ensures |old(Contents())| < capacity ==>
        err == ErrNone && Contents() == InsertAt(old(Contents()), UpperBound(old(Contents()), x, cmp), x)
    {
      ghost var s := Contents();
      if count >= capacity {
        return ErrFull;
      }
      var ins := count;
      var i: nat := 0;
      while i < count
        invariant i <= count && ins == count
        invariant forall k :: 0 <= k < i ==> cmp(store[k], x) <= 0
      {
        if cmp(store[i], x) > 0 {
          ins := i;
          break;
        }
        i := i + 1;
      }
      UpperBoundUnique(s, x, cmp, ins);
      err := Insert(ins, x);
    }

    /** The scan of mu_pvec_sorted_insert: the first and the last index
        whose pointer compares equal to x. */
    method Scan(x: P, cmp: Cmp<P>) returns (first: Option<nat>, last: Option<nat>)
      requires Valid()
      ensures first == FirstMatch(Contents(), x, cmp)
      ensures last == LastMatch(Contents(), x, cmp)
    {
      first, last := None, None;
      var i: nat := 0;
      while i < count
        invariant i <= count
        invariant first == FirstMatch(store[..i], x, cmp)
        invariant last == LastMatch(store[..i], x, cmp)
      {
        assert store[..i + 1][..i] == store[..i];
        if cmp(store[i], x) == 0 {
          if first.None? {
            first := Some(i);
          }
          last := Some(i);
        }
        i := i + 1;
      }
      assert store[..count] == Contents();
    }

    /** The update-only policies of mu_pvec_sorted_insert, given the scan:
        the slots are written directly. */
    method UpdateMatches(x: P, cmp: Cmp<P>, policy: InsertPolicy, first: Option<nat>, last: Option<nat>)
      returns (err: Err)
      requires Valid() && IsUpdate(policy)
      requires first == FirstMatch(Contents(), x, cmp) && last == LastMatch(Contents(), x, cmp)
      modifies store
      ensures Valid()
      ensures (err, Contents()) == Outcome(old(Contents()), capacity, x, cmp, policy, false)
    {
      ghost var s := Contents();
      UpdatesKeepCount(s, capacity, x, cmp, policy, false);
      if first.None? {
        return ErrNotFound;
      }
      if policy == UpdateFirst || policy == UpdateLast {
        UpdateOneTarget(s, capacity, x, cmp, policy, false);
        store[if policy == UpdateFirst then first.value else last.value] := x;
        err := ErrNone;
      } else {
        UpdateAllTarget(s, capacity, x, cmp, false);
        err := UpdateRun(x, cmp, first.value);
      }
    }

    /** The UPDATE_ALL loop of mu_pvec_sorted_insert: overwrites the
        pointers from the first match on for as long as they compare equal
        to x. */
    method UpdateRun(x: P, cmp: Cmp<P>, from: nat) returns (err: Err)
      requires Valid() && from <= count
      modifies store
      ensures Valid() && err == ErrNone
      ensures Contents() == Fill(old(Contents()), from, RunEnd(old(Contents()), x, cmp, from), x)
    {
      ghost var s := Contents();
      var i: nat := from;
      while i < count
        invariant from <= i <= count
        invariant Contents() == Fill(s, from, i, x)
        invariant forall k :: from <= k < i ==> cmp(s[k], x) == 0
      {
        if cmp(store[i], x) == 0 {
          FillStep(s, from, i, x);
          store[i] := x;
        } else {
          break;
        }
        i := i + 1;
      }
      RunEndUnique(s, x, cmp, from, i);
      return ErrNone;
    }
  }
}
