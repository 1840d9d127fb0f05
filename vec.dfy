/** mu_vec: a vector of fixed-size records kept in a caller-supplied array.
    The control block records the array, its capacity, the record size and
    the number of records in use; the live records are store[..count]. */
module MuVec {
  import opened MuStore
  import opened Slots
  import opened SortedInsert
  import MuSort

  /** SIZE_MAX on a 64-bit target: count - 1 when count is 0. */
  const SizeMax: nat := 0xFFFF_FFFF_FFFF_FFFF

  class Vec<T(!new)> {
    const store: array<T>
    const capacity: nat
    const itemSize: nat
    var count: nat

    ghost predicate Valid()
      reads this
    {
      0 < capacity <= store.Length && itemSize > 0 && count <= capacity
    }

    /** The records in use, in order. */
    function Contents(): (r: seq<T>)
      requires Valid()
      reads this, store
      ensures |r| == count <= capacity
    {
      store[..count]
    }

    constructor (store: array<T>, capacity: nat, itemSize: nat)
      requires 0 < capacity <= store.Length && itemSize > 0
      ensures Valid() && Contents() == []
      ensures this.store == store && this.capacity == capacity && this.itemSize == itemSize
    {
      this.store := store;
      this.capacity := capacity;
      this.itemSize := itemSize;
      count := 0;
    }

    /** mu_vec_init: NULL for a missing array, a zero capacity or a zero
        record size; otherwise an empty vector over the array. */
    static method Init(store: array?<T>, capacity: nat, itemSize: nat) returns (v: Vec?<T>)
      requires store != null ==> capacity <= store.Length
      ensures v == null <==> store == null || capacity == 0 || itemSize == 0
      ensures v != null ==> fresh(v) && v.Valid() && v.Contents() == []
      ensures v != null ==> v.store == store && v.capacity == capacity && v.itemSize == itemSize
    {
      if store == null || capacity == 0 || itemSize == 0 {
        return null;
      }
      v := new Vec(store, capacity, itemSize);
    }

    /** mu_vec_capacity: 0 for a NULL vector. */
    static function Capacity(v: Vec?<T>): (c: nat)
      reads v
      ensures v != null && v.Valid() ==> c > 0
      ensures v == null ==> c == 0
      ensures v != null ==> c == v.capacity
    {
      if v == null then 0 else v.capacity
    }

    /** mu_vec_count: the number of records, 0 for a NULL vector. */
    static function Count(v: Vec?<T>): (c: nat)
      requires v != null ==> v.Valid()
      reads v, if v == null then {} else {v.store}
      ensures v != null ==> c == |v.Contents()|
      ensures v == null ==> c == 0
    {
      if v == null then 0 else v.count
    }

    /** mu_vec_is_empty: a NULL vector counts as empty. */
    static function IsEmpty(v: Vec?<T>): (b: bool)
      requires v != null ==> v.Valid()
      reads v, if v == null then {} else {v.store}
      ensures b <==> v == null || v.Contents() == []
    {
      if v == null then true else v.count == 0
    }

    /** mu_vec_is_full: a NULL vector counts as not full. */
    static function IsFull(v: Vec?<T>): (b: bool)
      requires v != null ==> v.Valid()
      reads v, if v == null then {} else {v.store}
      ensures b <==> v != null && |v.Contents()| == v.capacity
    {
      if v == null then false else v.count >= v.capacity
    }

    /** mu_vec_clear: forgets every record. */
    method Clear() returns (err: Err)
      requires Valid()
      modifies this
      ensures Valid() && err == ErrNone && Contents() == []
    {
      count := 0;
      return ErrNone;
    }

    /** mu_vec_ref: a copy of the record at index.  PARAM when there is no
        output location, INDEX when index is not below the count. */
    method Ref(index: nat, hasOut: bool) returns (err: Err, item: Option<T>)
      requires Valid()
      ensures err == ErrParam <==> !hasOut
      ensures err == ErrIndex <==> hasOut && index >= |Contents()|
      ensures err == ErrNone <==> item.Some?
      ensures err == ErrNone <==> hasOut && index < |Contents()|
      ensures item.Some? ==> index < |Contents()| && item.value == Contents()[index]
    {
      if !hasOut {
        return ErrParam, None;
      }
      if index >= count {
        return ErrIndex, None;
      }
      return ErrNone, Some(store[index]);
    }

    /** mu_vec_push: appends a record.  PARAM for a NULL record, FULL when
        the count has reached the capacity. */
    method Push(item: Option<T>) returns (err: Err)
      requires Valid()
      modifies this, store
      ensures Valid()
      ensures err == ErrParam <==> item.None?
      ensures err == ErrFull <==> item.Some? && |old(Contents())| == capacity
      ensures err == ErrNone <==> item.Some? && |old(Contents())| < capacity
      ensures err == ErrNone ==> item.Some? && Contents() == old(Contents()) + [item.value]
      ensures err != ErrNone ==> Contents() == old(Contents())
      ensures store[count..] == old(store[..])[count..]
    {
      if item.None? {
        return ErrParam;
      }
      if count >= capacity {
        return ErrFull;
      }
      store[count] := item.value;
      count := count + 1;
      return ErrNone;
    }

    /** mu_vec_insert: puts a record at index and moves the later ones up.
        PARAM for a NULL record, INDEX beyond the count; at the count it is a
        push.  Before the count the code moves the records without checking
        the capacity, so a caller must not insert there into a full vector. */
    method Insert(index: nat, item: Option<T>) returns (err: Err)
      requires Valid()
      requires item.Some? && index < count ==> count < capacity
      modifies this, store
      ensures Valid()
      ensures err == ErrParam <==> item.None?
      ensures err == ErrIndex <==> item.Some? && index > |old(Contents())|
      ensures err == ErrFull <==> item.Some? && index == |old(Contents())| == capacity
      ensures err == ErrNone <==> item.Some? && index <= |old(Contents())| < capacity
      ensures err == ErrNone ==> item.Some? && Contents() == InsertAt(old(Contents()), index, item.value)
      ensures err != ErrNone ==> Contents() == old(Contents())
      ensures store[count..] == old(store[..])[count..]
    {
      if item.None? {
        return ErrParam;
      }
      if index > count {
        return ErrIndex;
      }
      if index == count {
        err := Push(item);
        return;
      }
      ghost var before := store[..];
      forall k | index < k <= count {
        store[k] := store[k - 1];
      }
      store[index] := item.value;
      count := count + 1;
      assert forall k :: 0 <= k < count ==> store[k] == InsertAt(before[..count - 1], index, item.value)[k];
      return ErrNone;
    }

    /** mu_vec_delete: removes the record at index, moving the later ones
        down, and copies it out when there is an output location.  INDEX when
        index is not below the count. */
    method Delete(index: nat, hasOut: bool) returns (err: Err, item: Option<T>)
      requires Valid()
      modifies this, store
      ensures Valid()
      ensures err == ErrIndex <==> index >= |old(Contents())|
      ensures err == ErrNone <==> index < |old(Contents())|
      ensures err == ErrNone ==> Contents() == RemoveAt(old(Contents()), index)
      ensures err == ErrNone && hasOut ==> item == Some(old(Contents())[index])
      ensures err != ErrNone || !hasOut ==> item.None?
      ensures err != ErrNone ==> Contents() == old(Contents())
    {
      if index >= count {
        return ErrIndex, None;
      }
      item := if hasOut then Some(store[index]) else None;
      ghost var before := store[..count];
      if index < count - 1 {
        forall k | index <= k < count - 1 {
          store[k] := store[k + 1];
        }
      }
      count := count - 1;
      assert forall k :: 0 <= k < count ==> store[k] == RemoveAt(before, index)[k];
      return ErrNone, item;
    }

    /** mu_vec_replace: overwrites the record at index.  PARAM for a NULL
        record, INDEX when index is not below the count. */
    method Replace(index: nat, item: Option<T>) returns (err: Err)
      requires Valid()
      modifies store
      ensures Valid()
      ensures err == ErrParam <==> item.None?
      ensures err == ErrIndex <==> item.Some? && index >= |old(Contents())|
      ensures err == ErrNone <==> item.Some? && index < |old(Contents())|
      ensures err == ErrNone ==> item.Some? && Contents() == old(Contents())[index := item.value]
      ensures err != ErrNone ==> Contents() == old(Contents())
      ensures store[count..] == old(store[..])[count..]
    {
      if item.None? {
        return ErrParam;
      }
      if index >= count {
        return ErrIndex;
      }
      store[index] := item.value;
      return ErrNone;
    }

    /** mu_vec_swap: exchanges the record at index with the caller's record:
        the caller's record goes in, the stored one comes back out.  PARAM
        for a NULL exchange location, INDEX when index is not below the
        count. */
    method Swap(index: nat, item: Option<T>) returns (err: Err, out: Option<T>)
      requires Valid()
      modifies store
      ensures Valid()
      ensures err == ErrParam <==> item.None?
      ensures err == ErrIndex <==> item.Some? && index >= |old(Contents())|
      ensures err == ErrNone <==> item.Some? && index < |old(Contents())|
      ensures err == ErrNone ==> item.Some? && Contents() == old(Contents())[index := item.value]
      ensures err == ErrNone ==> out == Some(old(Contents())[index])
      ensures err != ErrNone ==> Contents() == old(Contents()) && out == item
    {
      if item.None? {
        return ErrParam, item;
      }
      if index >= count {
        return ErrIndex, item;
      }
      out := Some(store[index]);
      store[index] := item.value;
      return ErrNone, out;
    }

    /** mu_vec_pop: removes the last record and copies it out when there is
        an output location.  EMPTY for an empty vector. */
    method Pop(hasOut: bool) returns (err: Err, item: Option<T>)
      requires Valid()
      modifies this
      ensures Valid()
      ensures err == ErrEmpty <==> old(Contents()) == []
      ensures err == ErrNone <==> old(Contents()) != []
      ensures err == ErrNone ==> Contents() + [old(Contents())[|old(Contents())| - 1]] == old(Contents())
      ensures err == ErrNone && hasOut ==> item == Some(old(Contents())[|old(Contents())| - 1])
      ensures err != ErrNone || !hasOut ==> item.None?
      ensures err != ErrNone ==> Contents() == old(Contents())
    {
      if count == 0 {
        return ErrEmpty, None;
      }
      item := if hasOut then Some(store[count - 1]) else None;
      count := count - 1;
      assert old(Contents()) == store[..count] + [store[count]];
      return ErrNone, item;
    }

    /** mu_vec_peek: the last record, read through mu_vec_ref at count - 1.
        On an empty vector that index wraps around to SIZE_MAX, so the result
        is INDEX (not EMPTY); a missing output location gives PARAM first. */
    method Peek(hasOut: bool) returns (err: Err, item: Option<T>)
      requires Valid()
      ensures err == ErrParam <==> !hasOut
      ensures err == ErrIndex <==> hasOut && Contents() == []
      ensures err == ErrNone <==> item.Some?
      ensures err == ErrNone <==> hasOut && Contents() != []
      ensures item.Some? ==> Contents() != [] && item.value == Contents()[|Contents()| - 1]
    {
      var index: nat := if count == 0 then SizeMax else count - 1;
      err, item := Ref(index, hasOut);
    }

    /** mu_vec_find: the first record the predicate accepts.  The predicate
        argument of the code is part of the predicate here.  PARAM for a
        missing predicate or output location, NOTFOUND when no record is
        accepted. */
    method Find(pred: Option<T -> bool>, hasOut: bool) returns (err: Err, index: Option<nat>)
      requires Valid()
      ensures err == ErrParam <==> pred.None? || !hasOut
      ensures err == ErrNone <==> index.Some?
      ensures err == ErrParam || err == ErrNotFound || err == ErrNone
      ensures err == ErrNone <==>
        pred.Some? && hasOut && exists k :: 0 <= k < |Contents()| && pred.value(Contents()[k])
      ensures err == ErrNotFound <==>
        pred.Some? && hasOut && forall k :: 0 <= k < |Contents()| ==> !pred.value(Contents()[k])
      ensures index.Some? ==> pred.Some? && index.value < |Contents()|
      ensures index.Some? ==> pred.value(Contents()[index.value])
      ensures index.Some? ==> forall k :: 0 <= k < index.value ==> !pred.value(Contents()[k])
    {
      if pred.None? || !hasOut {
        return ErrParam, None;
      }
      var i: nat := 0;
      while i < count
        invariant i <= count
        invariant forall k :: 0 <= k < i ==> !pred.value(store[k])
      {
        if pred.value(store[i]) {
          assert Contents()[i] == store[i];
          return ErrNone, Some(i);
        }
        i := i + 1;
      }
      return ErrNotFound, None;
    }

    /** mu_vec_rfind: the last record the predicate accepts, scanning down
        from the end. */
    method RFind(pred: Option<T -> bool>, hasOut: bool) returns (err: Err, index: Option<nat>)
      requires Valid()
      ensures err == ErrParam <==> pred.None? || !hasOut
      ensures err == ErrNone <==> index.Some?
      ensures err == ErrParam || err == ErrNotFound || err == ErrNone
      ensures err == ErrNone <==>
        pred.Some? && hasOut && exists k :: 0 <= k < |Contents()| && pred.value(Contents()[k])
      ensures err == ErrNotFound <==>
        pred.Some? && hasOut && forall k :: 0 <= k < |Contents()| ==> !pred.value(Contents()[k])
      ensures index.Some? ==> pred.Some? && index.value < |Contents()|
      ensures index.Some? ==> pred.value(Contents()[index.value])
      ensures index.Some? ==> forall k :: index.value < k < |Contents()| ==> !pred.value(Contents()[k])
    {
      if pred.None? || !hasOut {
        return ErrParam, None;
      }
      var i: nat := count;
      while i > 0
        invariant i <= count
        invariant forall k :: i <= k < count ==> !pred.value(store[k])
      {
        if pred.value(store[i - 1]) {
          assert Contents()[i - 1] == store[i - 1];
          return ErrNone, Some(i - 1);
        }
        i := i - 1;
      }
      return ErrNotFound, None;
    }

    /** mu_vec_sort: heapsort of the records in use.  PARAM for a missing
        comparator; fewer than two records are left as they are. */
    method Sort(cmp: Option<Cmp<T>>) returns (err: Err)
      requires Valid()
      requires cmp.Some? ==> Comparator(cmp.value)
      modifies store
      ensures Valid()
      ensures err == ErrParam <==> cmp.None?
      ensures err == ErrParam || err == ErrNone
      ensures err == ErrNone ==> Sorted(Contents(), cmp.value)
      ensures multiset(Contents()) == multiset(old(Contents()))
      ensures err == ErrParam || |Contents()| < 2 ==> Contents() == old(Contents())
      ensures store[count..] == old(store[..])[count..]
    {
      if cmp.None? {
        return ErrParam;
      }
      if count < 2 {
        return ErrNone;
      }
      err := MuSort.Sort(store, count, itemSize, cmp);
    }

    /** mu_vec_reverse: reverses the records in use in place by swapping
        from both ends toward the middle. */
    method Reverse() returns (err: Err)
      requires Valid()
      modifies store
      ensures Valid() && err == ErrNone
      ensures Contents() == Reversed(old(Contents()))
      ensures store[count..] == old(store[..])[count..]
    {
      if count < 2 {
        return ErrNone;
      }
      SwapEnds();
      assert forall k :: 0 <= k < count ==> Contents()[k] == Reversed(old(Contents()))[k];
      return ErrNone;
    }

    /** The loop of mu_vec_reverse: swaps the records at left and right and
        moves both toward the middle until they meet. */
    method SwapEnds()
      requires Valid() && count >= 2
      modifies store
      ensures forall k :: 0 <= k < count ==> store[k] == old(store[count - 1 - k])
      ensures forall k :: count <= k < store.Length ==> store[k] == old(store[k])
    {
      var left: nat, right: nat := 0, count - 1;
      while left < right
        invariant left + right == count - 1
        invariant left <= right + 1
        invariant forall k :: 0 <= k < left ==> store[k] == old(store[count - 1 - k])
        invariant forall k :: right < k < count ==> store[k] == old(store[count - 1 - k])
        invariant forall k :: left <= k <= right ==> store[k] == old(store[k])
        invariant forall k :: count <= k < store.Length ==> store[k] == old(store[k])
      {
        MuSort.SwapAt(store, left, right);
        left, right := left + 1, right - 1;
      }
    }

    /** mu_vec_sorted_insert: one scan for the first and the last record that
        compares equal to x, then the policy dispatch.  PARAM for a missing
        comparator.  Insertions that the dispatch can send into a full vector
        (INSERT_FIRST and INSERT_LAST with a match) must be excluded by the
        caller.  The result is the decision model's outcome. */
    method SortedInsert(x: T, cmp: Option<Cmp<T>>, policy: InsertPolicy) returns (err: Err)
      requires Valid()
      requires cmp.Some? ==> !Overruns(Contents(), capacity, Decide(Contents(), capacity, x, cmp.value, policy), true)
      modifies this, store
      ensures Valid()
      ensures cmp.None? ==> err == ErrParam && Contents() == old(Contents())
      ensures cmp.Some? ==>
        (err, Contents()) == Outcome(old(Contents()), capacity, x, cmp.value, policy, true)
    {
      if cmp.None? {
        return ErrParam;
      }
      var c := cmp.value;
      ghost var s := Contents();
      var first, last := Scan(x, c);
      if IsUpdate(policy) {
        err := UpdateMatches(x, c, policy, first, last);
      } else if first.Some? && (policy == UpsertFirst || policy == UpsertLast || policy == InsertUnique) {
        err := ReplaceOrReject(x, c, policy, first, last);
      } else if first.Some? && (policy == InsertDuplicate || policy == InsertFirst || policy == InsertLast) {
        err := InsertNextToMatch(x, c, policy, first, last);
      } else if policy == InsertDuplicate {
        err := ErrNotFound;
      } else {
        TakesDefaultPath(s, capacity, x, c, policy);
        err := DefaultInsert(x, c);
      }
    }

    /** UPSERT_FIRST, UPSERT_LAST and INSERT_UNIQUE in mu_vec_sorted_insert
        when some record matches. */
    method ReplaceOrReject(x: T, cmp: Cmp<T>, policy: InsertPolicy, first: Option<nat>, last: Option<nat>)
      returns (err: Err)
      requires Valid() && first.Some?
      requires policy == UpsertFirst || policy == UpsertLast || policy == InsertUnique
      requires first == FirstMatch(Contents(), x, cmp) && last == LastMatch(Contents(), x, cmp)
      modifies store
      ensures Valid()
      ensures (err, Contents()) == Outcome(old(Contents()), capacity, x, cmp, policy, true)
    {
      MatchesAgree(Contents(), x, cmp);
      if policy == UpsertFirst {
        err := Replace(first.value, Some(x));
      } else if policy == UpsertLast {
        err := Replace(last.value, Some(x));
      } else {
        err := ErrExists;
      }
    }

    /** INSERT_DUPLICATE, INSERT_FIRST and INSERT_LAST in
        mu_vec_sorted_insert when some record matches. */
    method InsertNextToMatch(x: T, cmp: Cmp<T>, policy: InsertPolicy, first: Option<nat>, last: Option<nat>)
      returns (err: Err)
      requires Valid() && first.Some?
      requires policy == InsertDuplicate || policy == InsertFirst || policy == InsertLast
      requires first == FirstMatch(Contents(), x, cmp) && last == LastMatch(Contents(), x, cmp)
      requires !Overruns(Contents(), capacity, Decide(Contents(), capacity, x, cmp, policy), true)
      modifies this, store
      ensures Valid()
      ensures (err, Contents()) == Outcome(old(Contents()), capacity, x, cmp, policy, true)
    {
      NextToMatchOutcome(Contents(), capacity, x, cmp, policy, true);
      if policy == InsertDuplicate && count >= capacity {
        return ErrFull;
      }
      var at := if policy == InsertFirst then first.value else last.value + 1;
      err := Insert(at, Some(x));
    }

    /** The default insertion of mu_vec_sorted_insert: FULL on a full vector,
        otherwise an insertion before the first record that compares greater
        than x, found by a linear scan. */
    method DefaultInsert(x: T, cmp: Cmp<T>) returns (err: Err)
      requires Valid()
      modifies this, store
      ensures Valid()
      ensures |old(Contents())| >= capacity ==> err == ErrFull && Contents() == old(Contents())
      ensures |old(Contents())| < capacity ==>
        err == ErrNone && Contents() == InsertAt(old(Contents()), UpperBound(old(Contents()), x, cmp), x)
    {
      ghost var s := Contents();
      if count >= capacity {
        return ErrFull;
      }
      var ins := count;
      var i: nat := 0;
      while i < count
        invariant i <= count && ins == count
        invariant forall k :: 0 <= k < i ==> cmp(store[k], x) <= 0
      {
        if cmp(store[i], x) > 0 {
          ins := i;
          break;
        }
        i := i + 1;
      }
      UpperBoundUnique(s, x, cmp, ins);
      err := Insert(ins, Some(x));
    }

    /** The scan of mu_vec_sorted_insert: the first and the last index whose
        record compares equal to x. */
    method Scan(x: T, cmp: Cmp<T>) returns (first: Option<nat>, last: Option<nat>)
      requires Valid()
      ensures first == FirstMatch(Contents(), x, cmp)
      ensures last == LastMatch(Contents(), x, cmp)
    {
      first, last := None, None;
      var i: nat := 0;
      while i < count
        invariant i <= count
        invariant first == FirstMatch(store[..i], x, cmp)
        invariant last == LastMatch(store[..i], x, cmp)
      {
        assert store[..i + 1][..i] == store[..i];
        if cmp(store[i], x) == 0 {
          if first.None? {
            first := Some(i);
          }
          last := Some(i);
        }
        i := i + 1;
      }
      assert store[..count] == Contents();
    }

    /** The update-only policies of mu_vec_sorted_insert, given the scan. */
    method UpdateMatches(x: T, cmp: Cmp<T>, policy: InsertPolicy, first: Option<nat>, last: Option<nat>)
      returns (err: Err)
      requires Valid() && IsUpdate(policy)
      requires first == FirstMatch(Contents(), x, cmp) && last == LastMatch(Contents(), x, cmp)
      modifies store
      ensures Valid()
      ensures (err, Contents()) == Outcome(old(Contents()), capacity, x, cmp, policy, true)
    {
      ghost var s := Contents();
      UpdatesKeepCount(s, capacity, x, cmp, policy, true);
      if first.None? {
        return ErrNotFound;
      }
      if policy == UpdateFirst || policy == UpdateLast {
        UpdateOneTarget(s, capacity, x, cmp, policy, true);
        err := Replace(if policy == UpdateFirst then first.value else last.value, Some(x));
      } else {
        UpdateAllTarget(s, capacity, x, cmp, true);
        err := UpdateRun(x, cmp, first.value);
      }
    }

    /** The UPDATE_ALL loop of mu_vec_sorted_insert: overwrites the records
        from the first match on for as long as they compare equal to x. */
    method UpdateRun(x: T, cmp: Cmp<T>, from: nat) returns (err: Err)
      requires Valid() && from <= count
      modifies store
      ensures Valid() && err == ErrNone
      ensures Contents() == Fill(old(Contents()), from, RunEnd(old(Contents()), x, cmp, from), x)
    {
      ghost var s := Contents();
      var i: nat := from;
      while i < count
        invariant from <= i <= count
        invariant Contents() == Fill(s, from, i, x)
        invariant forall k :: from <= k < i ==> cmp(s[k], x) == 0
      {
        if cmp(store[i], x) == 0 {
          FillStep(s, from, i, x);
          err := Replace(i, Some(x));
        } else {
          break;
        }
        i := i + 1;
      }
      RunEndUnique(s, x, cmp, from, i);
      return ErrNone;
    }
  }
}
