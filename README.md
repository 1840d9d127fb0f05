# mu_store in Dafny

mu_store is a family of containers for embedded C programs. None of them
allocates memory: the caller supplies the backing array and a control block.
This project models the family's shared core and its containers:

- **MuStore** (`store.dfy`): the shared pieces.
  - The result codes `mu_store_err_t` and the ten insertion policies `mu_store_insert_policy_t`, each with its numeric encoding.
  - The comparator contract.
  - The lower-bound search that the header declares.
- **MuSort** (`sort.dfy`): the swap helpers, plus the in-place heapsort behind `mu_store_sort` (records) and `mu_store_psort` (pointers).
- **MuVec** (`vec.dfy`) and **MuPVec** (`pvec.dfy`): vectors of fixed-size records and of pointers, including `sorted_insert` with every policy.
- **SortedInsert** (`policy.dfy`): the decision logic that both `sorted_insert` functions share, as pure functions, plus the lemmas about it.
  - The scan for the first and last match, the policy dispatch, and the resulting outcome.
  - The lemmas cover which error each situation gives, keeping sorted order, and agreement with the binary search.
- **MuQueue** (`queue.dfy`) and **MuPQueue** (`pqueue.dfy`): circular FIFOs of records and of pointers.
- **MuSpsc** (`spsc.dfy`): the single-producer/single-consumer ring over a power-of-two store, whose indices wrap by masking.
- **MuPool** (`pool.dfy`): the pool of fixed-size slots handed out through an intrusive free list.
- **Support modules**, each giving the functions the container methods are proved against:
  - **Slots** (`slots.dfy`): insert-at, remove-at, fill and reverse on sequences;
  - **Ring** (`ring.dfy`): circular windows over a buffer;
  - **Bits** (`bits.dfy`): bitwise AND on naturals, and why `x & (n - 1)` is `x % n` for a power of two `n`.

### Modelling conventions

- **Control blocks** are classes. Their fields are the control block's fields, and the backing store is an `array` that the methods update in place.
- **Contents.** Each container has a `Contents()` function giving its items as a sequence, oldest or lowest index first.
- **Method contracts.** Each mutating method states its new `Contents()` in terms of the old one and the functions of Slots and Ring.
- **Records are modelled whole.** A record of `item_size` bytes is one element of the array, and `memcpy`/`memmove` of records becomes element assignment. Records are compared only through the comparator.
- **NULL arguments:**
  - A NULL record pointer passed in is an `Option` that is `None`, except for the item of `mu_vec_sorted_insert` (see "## Left out").
  - A NULL output pointer is `hasOut == false`.
  - A NULL backing array is a nullable `array?`.
  - A NULL callback is an `Option` that is `None`.
- **Init.** Each `init` is a static method that returns `null` where the C function returns NULL because of its other arguments. It creates the control block itself, so the NULL control block case is not modelled (see "## Left out").
- **Comparators.** Where the code relies on sign laws it never checks, the comparator is required to satisfy them (`MuStore.Comparator`: antisymmetric and transitive). The scans of `sorted_insert` need no such requirement.

## Model

| member | source | states |
|---|---|---|
| MuStore.ErrOfCode | inc/mu_store.h:50-59 | exactly the values 0..7 decode to a result code, and decoding inverts `ErrCode` |
| MuStore.PolicyOfCode | inc/mu_store.h:67-86 | exactly the values 0..9 decode to a policy, and decoding inverts `PolicyCode` |
| MuStore.ComparatorFacts | inc/mu_store.h:88-95 | a comparator that meets the sign laws is reflexive, its sign flips with its arguments, and "not above", "below" and "equal" are transitive |
| MuStore.LowerBound | inc/mu_store.h:127-143 | reference definition of the search result: every earlier item is below x, and the result is not above x |
| MuStore.SearchIsLowerBound | inc/mu_store.h:127-170 | on a sorted array the binary search returns the smallest index whose item is not below x; everything before it is below x |
| MuStore.SearchIsLinearLowerBound | inc/mu_store.h:127-170 | the binary search equals the linear reference lower bound |
| MuStore.SearchFindsFirstOfRun | inc/mu_store.h:127-143 | when some item equals x, the search lands on an equal item with no equal item before it |
| MuStore.SearchAboveAll | inc/mu_store.h:161-166 | when every item is below x, the search returns item_count |
| Slots.InsertAt | src/mu_vec.c:128-145 | inserting grows the contents by one, puts x at i, keeps the items before i, and moves the later ones up one place |
| Slots.RemoveAt | src/mu_vec.c:160-176 | removing shrinks the contents by one, keeps the items before i, and moves the later ones down one place |
| Slots.RemoveInserted | src/mu_vec.c:114-179 | a delete at the index of an insert restores the contents |
| Slots.InsertRemoved | src/mu_vec.c:114-179 | re-inserting a deleted item at its index restores the contents |
| Slots.InsertAtMultiset | src/mu_vec.c:114-146 | an insertion adds exactly one occurrence of the item |
| Slots.RemoveAtMultiset | src/mu_vec.c:148-179 | a deletion removes exactly one occurrence of the deleted item |
| Slots.Fill | src/mu_vec.c:413-425 | every slot in [lo, hi) holds x, and every other slot is unchanged |
| Slots.FillStep | src/mu_vec.c:417-424 | overwriting one more slot extends the overwritten range by one |
| Slots.Reversed | src/mu_vec.c:322-345 | item k of the result is item n-1-k of the input |
| Slots.ReversedTwice | src/mu_vec.c:322-345 | reversing twice restores the contents |
| Slots.ReversedMultiset | src/mu_vec.c:322-345 | reversal is a permutation |
| Ring.WrapIsMod | src/mu_queue.c:97 | the linear wrap used in the specification is the code's `% capacity` |
| Ring.Next | src/mu_queue.c:118-119 | the code's `(i + 1) % capacity` is the slot after i, wrapping to 0 |
| Ring.WindowAt | src/mu_queue.c:86-125 | item k of the queued window is the slot k places after head, wrapping round |
| Ring.WindowPut | src/mu_queue.c:90-100 | writing the tail slot of a window that is not full, and growing it by one, appends the item |
| Ring.WindowGet | src/mu_queue.c:110-122 | the head slot holds the oldest item, and advancing head with wrap-around drops exactly that item |
| Ring.TailMeetsHead | src/mu_queue.c:86-125 | tail equals head exactly when the queue is empty or full |
| Bits.BitAnd | src/mu_spsc.c:38 | x & y is not above either operand |
| Bits.MaskIsMod | src/mu_spsc.c:70-94 | for a power of two n, x & (n - 1) is x mod n |
| Bits.BitAndSelf | src/mu_spsc.c:38 | a & a == a |
| Bits.PowerOfTwoTest | src/mu_spsc.c:38 | for n >= 1, n & (n - 1) == 0 exactly when n is a power of two |
| MuSort.SwapItems | src/mu_store.c:53-70 | on disjoint blocks of item_size units, or a block swapped with itself, each block receives the other's old contents and nothing else changes; a NULL block means nothing changes |
| MuSort.SwapPointers | src/mu_store.c:80-84 | the two pointer slots exchange their values and nothing else changes; a NULL slot means nothing changes |
| MuSort.SwapAt | src/mu_store.c:53-84 | the swap exchanges two slots, leaves every other slot as it was, and is a permutation |
| MuSort.RootDominates | src/mu_store.c:139-172 | in a max-heap no item is above the root |
| MuSort.SiftStep | src/mu_store.c:205-239 | one sift-down exchange moves the heap defect from the parent to the child it swapped with |
| MuSort.Heapify | src/mu_store.c:205-239 | sifting down restores the max-heap property on [lo, n), rearranges only the heap, and leaves the prefix before i and the tail alone |
| MuSort.LeavesAreHeaps | src/mu_store.c:151-154 | the nodes from n / 2 on are heaps, so building starts at n / 2 - 1 |
| MuSort.ExtractStep | src/mu_store.c:156-160 | each extraction round keeps the invariant: a heap on the front, sorted items at the back, and nothing in front above the back |
| MuSort.ExtractDone | src/mu_store.c:156-168 | when the extraction loop ends, the whole array is sorted |
| MuSort.HeapSort | src/mu_store.c:151-168 | the items end up in ascending order, as a permutation of the input, with the rest of the array untouched |
| MuSort.Sort | src/mu_store.c:139-172 | PARAM exactly for a NULL array, a NULL comparator or a zero item size, and then nothing changes; otherwise the items are sorted and permuted, the rest is untouched, and one item or none is left as it is |
| MuSort.PSort | src/mu_store.c:173-200 | PARAM exactly for a NULL array or comparator; otherwise the pointers are sorted and permuted, and the rest is untouched |
| SortedInsert.FirstMatchSpec | src/mu_vec.c:386-397 | the scan's first_match compares equal to x with no equal item before it, and it is absent exactly when nothing matches |
| SortedInsert.LastMatchSpec | src/mu_vec.c:386-397 | the scan's last_match compares equal to x with no equal item after it, and it is absent exactly when nothing matches |
| SortedInsert.MatchesAgree | src/mu_vec.c:386-397 | first and last match are present together, and first <= last |
| SortedInsert.UpperBound | src/mu_vec.c:472-485 | the default insertion point: no earlier item is above x, and the item at the point is above x |
| SortedInsert.UpperBoundUnique | src/mu_vec.c:476-483 | any index with that characterisation is the upper bound, so the default loop computes it |
| SortedInsert.RunEnd | src/mu_vec.c:417-424 | the UPDATE_ALL loop stops at the first item after the start that does not compare equal |
| SortedInsert.Dispatch | src/mu_vec.c:399-471 | a rejection is NOTFOUND, EXISTS or FULL; FULL occurs only on a full vector; replacements target a match; insertions target a match, the slot after the last match, or the upper bound |
| SortedInsert.Decide | src/mu_vec.c:386-471 | a replacement hits a matching item, UPDATE_ALL's run is a run of matches, an insertion point is within bounds, and FULL happens only when the vector is full |
| SortedInsert.Outcome | src/mu_vec.c:379-486 | the result is one of NONE, NOTFOUND, EXISTS or FULL; an error leaves the contents unchanged and success changes the count by at most one |
| SortedInsert.OutcomeAddsItem | src/mu_vec.c:379-486 | a sorted insertion that grows the contents adds exactly one occurrence of the item |
| SortedInsert.UpdatesKeepCount | src/mu_vec.c:400-425 | the update policies never change the count, never overrun, and give NOTFOUND exactly when nothing matches |
| SortedInsert.UpdateOneTarget | src/mu_vec.c:401-412 | UPDATE_FIRST overwrites the first match and UPDATE_LAST the last |
| SortedInsert.UpdateAllTarget | src/mu_vec.c:413-425 | UPDATE_ALL overwrites the run of matches that starts at the first match |
| SortedInsert.SortedEqualRun | src/mu_vec.c:413-425 | in sorted contents, items between two equal items are equal too |
| SortedInsert.RunEndAfterLastMatch | src/mu_vec.c:413-425 | on sorted contents the UPDATE_ALL run ends just after the last match |
| SortedInsert.UpdateAllCoversMatches | src/mu_vec.c:413-425 | on sorted contents UPDATE_ALL replaces exactly the items that compare equal to x |
| SortedInsert.FullContainer | src/mu_vec.c:399-485 | on a full vector: EXISTS only for INSERT_UNIQUE with a match; NOTFOUND for updates or INSERT_DUPLICATE without a match; FULL for the default path and INSERT_DUPLICATE with a match; insertion only for INSERT_FIRST/LAST with a match |
| SortedInsert.RoomToSpare | src/mu_vec.c:399-485 | with room to spare, EXISTS and NOTFOUND arise exactly as on a full vector, and FULL never does |
| SortedInsert.OverrunsOnlyFirstLast | src/mu_vec.c:456-465 | only INSERT_FIRST and INSERT_LAST with a match, on a full vector, reach an insertion that no check stops |
| SortedInsert.OverrunWitness | src/mu_vec.c:456-465 | concrete cases: INSERT_FIRST of 5 into the full vector [5]; vec INSERT_LAST gives FULL there but reaches the unchecked shift on [5, 7] |
| SortedInsert.FirstMatchIsSearch | src/mu_vec.c:386-397 | on sorted contents the first match is the lower bound of `mu_store_search` |
| SortedInsert.UpperBoundAfterLastMatch | src/mu_vec.c:472-485 | on sorted contents with a match the upper bound is one past the last match |
| SortedInsert.UpperBoundIsSearchWithoutMatch | src/mu_vec.c:472-485 | without a match the default path's insertion point is the lower bound of `mu_store_search` |
| SortedInsert.InsertTargetsWithMatch | src/mu_vec.c:448-465 | with a match INSERT_FIRST inserts at the first match, and INSERT_LAST and INSERT_DUPLICATE insert after the last |
| SortedInsert.NextToMatchOutcome | src/mu_vec.c:448-465 | with a match, a full vector gives FULL; otherwise the item is inserted at the first match (INSERT_FIRST) or after the last match |
| SortedInsert.TakesDefaultPath | src/mu_vec.c:427-485 | INSERT_ANY, and the upserts, INSERT_UNIQUE, INSERT_FIRST and INSERT_LAST without a match, fall through to the default insertion |
| SortedInsert.InsertLastIsUpperBound | src/mu_vec.c:456-465 | on sorted contents, INSERT_LAST inserts where the default path would |
| SortedInsert.EquivalentKeepsSorted | src/mu_vec.c:400-442 | replacing items by equal ones keeps the contents sorted |
| SortedInsert.InsertKeepsSorted | src/mu_vec.c:448-485 | inserting between the items not above x and those not below it keeps the contents sorted |
| SortedInsert.OutcomeKeepsSorted | src/mu_vec.c:379-486 | every policy keeps sorted contents sorted |
| SortedInsert.InsertAtUpperOrLower | src/mu_vec.c:472-485 | inserting at the upper bound or at the search's lower bound keeps the contents sorted |
| SortedInsert.UniqueTwice | src/mu_vec.c:443-447 | after a successful INSERT_UNIQUE, a second one with the same item gives EXISTS |
| MuVec.Vec.Init | src/mu_vec.c:62-72 | NULL exactly for a missing array, a zero capacity or a zero item size; otherwise an empty vector over the array |
| MuVec.Vec.Capacity | src/mu_vec.c:74 | the vector's capacity, which is positive for an initialised vector; 0 for a NULL vector |
| MuVec.Vec.Count | src/mu_vec.c:76 | the number of records, and 0 for NULL |
| MuVec.Vec.IsEmpty | src/mu_vec.c:78-80 | true exactly for NULL or no records |
| MuVec.Vec.IsFull | src/mu_vec.c:82-85 | true exactly when the vector is non-NULL and holds capacity records |
| MuVec.Vec.Clear | src/mu_vec.c:87-93 | NONE, and the vector is empty |
| MuVec.Vec.Ref | src/mu_vec.c:95-112 | PARAM without an output location, then INDEX at or beyond the count; NONE exactly with an output location and an index below the count, and then the record at index |
| MuVec.Vec.Push | src/mu_vec.c:213-230 | PARAM for NULL, then FULL at capacity; otherwise appends the record; an error changes nothing |
| MuVec.Vec.Insert | src/mu_vec.c:114-146 | PARAM, INDEX beyond the count, FULL only when appending to a full vector; otherwise the record is inserted at index |
| MuVec.Vec.Delete | src/mu_vec.c:148-179 | INDEX exactly at or beyond the count; otherwise removes the record at index and hands it out when asked |
| MuVec.Vec.Replace | src/mu_vec.c:181-197 | PARAM for NULL, INDEX beyond the count; otherwise only the record at index changes |
| MuVec.Vec.Swap | src/mu_vec.c:199-211 | PARAM, INDEX; otherwise the caller's record and the stored one trade places |
| MuVec.Vec.Pop | src/mu_vec.c:232-252 | EMPTY exactly when empty; otherwise drops the last record and hands it out when asked |
| MuVec.Vec.Peek | src/mu_vec.c:254-262 | PARAM without an output location, INDEX when empty (via ref at count - 1); NONE exactly with an output location on a non-empty vector, and then the last record |
| MuVec.Vec.Find | src/mu_vec.c:264-281 | the result is PARAM, NOTFOUND or NONE; PARAM for a NULL predicate or output; NOTFOUND exactly when no record is accepted; NONE exactly when some record is accepted, and then the first accepted index |
| MuVec.Vec.RFind | src/mu_vec.c:283-302 | the result is PARAM, NOTFOUND or NONE; PARAM for a NULL predicate or output; NOTFOUND exactly when no record is accepted; NONE exactly when some record is accepted, and then the last accepted index |
| MuVec.Vec.Sort | src/mu_vec.c:304-320 | PARAM for a NULL comparator; otherwise the records end up sorted; always a permutation |
| MuVec.Vec.Reverse | src/mu_vec.c:322-345 | the records end up in reverse order |
| MuVec.Vec.SwapEnds | src/mu_vec.c:330-343 | the swap loop leaves slot k holding the old slot count-1-k |
| MuVec.Vec.SortedInsert | src/mu_vec.c:379-486 | PARAM for a NULL comparator; otherwise the result code and new contents are the decision model's Outcome |
| MuVec.Vec.Scan | src/mu_vec.c:386-397 | the loop computes the first and the last match |
| MuVec.Vec.UpdateMatches | src/mu_vec.c:400-425 | the update policies realise Outcome |
| MuVec.Vec.UpdateRun | src/mu_vec.c:413-425 | the UPDATE_ALL loop fills the run from first_match up to RunEnd with x |
| MuVec.Vec.ReplaceOrReject | src/mu_vec.c:432-447 | the upserts and INSERT_UNIQUE with a match realise Outcome |
| MuVec.Vec.InsertNextToMatch | src/mu_vec.c:448-465 | INSERT_DUPLICATE, INSERT_FIRST and INSERT_LAST with a match realise Outcome |
| MuVec.Vec.DefaultInsert | src/mu_vec.c:472-485 | FULL on a full vector; otherwise inserts at the upper bound |
| MuPVec.PVec.Init | src/mu_pvec.c:53-62 | NULL exactly for a missing array or a zero capacity; otherwise an empty vector |
| MuPVec.PVec.Capacity | src/mu_pvec.c:64 | the vector's capacity, positive when initialised; 0 for NULL |
| MuPVec.PVec.Count | src/mu_pvec.c:66 | the number of pointers, and 0 for NULL |
| MuPVec.PVec.IsEmpty | src/mu_pvec.c:68-70 | true exactly for NULL or no pointers |
| MuPVec.PVec.IsFull | src/mu_pvec.c:72-75 | true exactly when non-NULL and at capacity |
| MuPVec.PVec.Clear | src/mu_pvec.c:77-83 | NONE, and the vector is empty |
| MuPVec.PVec.Ref | src/mu_pvec.c:85-95 | PARAM without an output location, INDEX at or beyond the count; NONE exactly with an output location and an index below the count, and then the pointer at index |
| MuPVec.PVec.Insert | src/mu_pvec.c:97-120 | INDEX beyond the count; otherwise the pointer is inserted at index |
| MuPVec.PVec.Delete | src/mu_pvec.c:122-146 | INDEX at or beyond the count; otherwise removes the pointer, handing it out when asked |
| MuPVec.PVec.Replace | src/mu_pvec.c:148-158 | INDEX beyond the count; otherwise only the slot at index changes |
| MuPVec.PVec.Swap | src/mu_pvec.c:160-172 | PARAM without an in-out location, INDEX; otherwise the pointers trade places |
| MuPVec.PVec.Push | src/mu_pvec.c:174-185 | FULL at capacity; otherwise appends |
| MuPVec.PVec.Pop | src/mu_pvec.c:187-201 | EMPTY when empty; otherwise drops the last pointer and hands it out when asked |
| MuPVec.PVec.Peek | src/mu_pvec.c:203-211 | PARAM without an output location, INDEX when empty; NONE exactly with an output location on a non-empty vector, and then the last pointer |
| MuPVec.PVec.Find | src/mu_pvec.c:213-227 | the result is PARAM, NOTFOUND or NONE; PARAM for a NULL predicate or output; NOTFOUND exactly when none is accepted; NONE exactly when some pointer is accepted, and then the first accepted index |
| MuPVec.PVec.RFind | src/mu_pvec.c:229-244 | the result is PARAM, NOTFOUND or NONE; PARAM for a NULL predicate or output; NOTFOUND exactly when none is accepted; NONE exactly when some pointer is accepted, and then the last accepted index |
| MuPVec.PVec.Sort | src/mu_pvec.c:246-257 | PARAM for a NULL comparator; otherwise sorted; always a permutation |
| MuPVec.PVec.Reverse | src/mu_pvec.c:259-278 | the pointers end up in reverse order |
| MuPVec.PVec.SwapEnds | src/mu_pvec.c:264-276 | the swap loop leaves slot k holding the old slot count-1-k |
| MuPVec.PVec.SortedInsert | src/mu_pvec.c:280-397 | PARAM for a NULL comparator; otherwise result and contents are Outcome, with the append path unchecked for FULL |
| MuPVec.PVec.Scan | src/mu_pvec.c:289-300 | the loop computes the first and the last match |
| MuPVec.PVec.UpdateMatches | src/mu_pvec.c:302-333 | the update policies realise Outcome |
| MuPVec.PVec.UpdateRun | src/mu_pvec.c:317-329 | the UPDATE_ALL loop fills the run of matches with x |
| MuPVec.PVec.ReplaceOrReject | src/mu_pvec.c:336-355 | the upserts and INSERT_UNIQUE with a match realise Outcome |
| MuPVec.PVec.InsertNextToMatch | src/mu_pvec.c:356-377 | INSERT_DUPLICATE, INSERT_FIRST and INSERT_LAST with a match realise Outcome |
| MuPVec.PVec.DefaultInsert | src/mu_pvec.c:385-396 | FULL on a full vector; otherwise inserts at the upper bound |
| MuQueue.Queue.Init | src/mu_queue.c:49-60 | NULL exactly for a missing array, no slots or a zero item size; otherwise empty with head and tail at 0 |
| MuQueue.Queue.Capacity | src/mu_queue.c:62-64 | the queue's slot count, positive when initialised; 0 for NULL |
| MuQueue.Queue.Count | src/mu_queue.c:66-68 | the number of queued records, and 0 for NULL |
| MuQueue.Queue.IsEmpty | src/mu_queue.c:70-72 | true exactly for NULL or nothing queued |
| MuQueue.Queue.IsFull | src/mu_queue.c:74-76 | true exactly for NULL or capacity records queued |
| MuQueue.Queue.HeadMeetsTail | src/mu_queue.c:86-125 | head equals tail exactly when the queue is empty or full |
| MuQueue.Queue.Clear | src/mu_queue.c:78-84 | empty, with both indices at 0 |
| MuQueue.Queue.Put | src/mu_queue.c:86-103 | PARAM for NULL, then FULL; otherwise appends at the back, writing only the tail slot, and advances tail with wrap-around; an error changes nothing |
| MuQueue.Queue.Get | src/mu_queue.c:105-125 | EMPTY exactly when empty; otherwise removes the oldest record, handing it out when asked |
| MuQueue.Queue.Peek | src/mu_queue.c:127-140 | PARAM without an output location, then EMPTY; NONE exactly with an output location on a non-empty queue, and then the oldest record |
| MuPQueue.PQueue.Init | src/mu_pqueue.c:47-59 | NULL exactly for a missing array or no slots; otherwise empty |
| MuPQueue.PQueue.Capacity | src/mu_pqueue.c:61 | the queue's slot count, positive when initialised; 0 for NULL |
| MuPQueue.PQueue.Count | src/mu_pqueue.c:63 | the number of queued pointers, and 0 for NULL |
| MuPQueue.PQueue.IsEmpty | src/mu_pqueue.c:65-67 | true exactly for NULL or nothing queued |
| MuPQueue.PQueue.IsFull | src/mu_pqueue.c:69-71 | true exactly for NULL or at capacity |
| MuPQueue.PQueue.HeadMeetsTail | src/mu_pqueue.c:82-122 | head equals tail exactly when empty or full |
| MuPQueue.PQueue.Clear | src/mu_pqueue.c:73-80 | empty, with both indices at 0 |
| MuPQueue.PQueue.Put | src/mu_pqueue.c:82-101 | FULL at capacity; otherwise appends, writing only the tail slot |
| MuPQueue.PQueue.Get | src/mu_pqueue.c:103-122 | PARAM without an output location, then EMPTY; otherwise removes and hands out the oldest pointer |
| MuPQueue.PQueue.Peek | src/mu_pqueue.c:124-139 | PARAM without an output location, then EMPTY; NONE exactly with an output location on a non-empty queue, and then the oldest pointer |
| MuSpsc.MaskIndex | src/mu_spsc.c:70-94 | masking an index one step past the ring wraps it round the ring |
| MuSpsc.RingPut | src/mu_spsc.c:69-81 | FULL exactly when every usable slot is taken; otherwise writing the tail slot and advancing tail appends the item |
| MuSpsc.RingGet | src/mu_spsc.c:86-97 | the head slot holds the oldest item, and advancing head drops exactly it |
| MuSpsc.Spsc.CountIsMasked | src/mu_spsc.c:62-64 | a property of the index state, not the counterpart of a C function (mu_spsc computes no count): the number of buffered items is (tail - head) & mask |
| MuSpsc.Spsc.TailAfterItems | src/mu_spsc.c:69-81 | tail is the slot after the last item |
| MuSpsc.Spsc.NextTailIsHead | src/mu_spsc.c:70-73 | the slot after tail is head exactly when the buffer holds mask items |
| MuSpsc.Spsc.Init | src/mu_spsc.c:46-54 | SIZE exactly when the store size is below 2 or not a power of two; otherwise an empty buffer whose mask is size - 1 |
| MuSpsc.Spsc.Reset | src/mu_spsc.c:56-60 | both indices at 0, and the buffer is empty |
| MuSpsc.Spsc.Capacity | src/mu_spsc.c:62-64 | one less than the store size |
| MuSpsc.Spsc.Put | src/mu_spsc.c:69-81 | FULL exactly when the masked slot after tail is head, which is when the buffer holds capacity items; otherwise appends |
| MuSpsc.Spsc.Get | src/mu_spsc.c:86-97 | EMPTY exactly when head is tail; otherwise the oldest item, removed |
| MuPool.CountdownAt | src/mu_pool.c:75-83 | after a reset, entry k of the free list is slot n-1-k |
| MuPool.SlotOnce | src/mu_pool.c:75-83 | after a reset, slot i is on the free list once if i < n and not at all otherwise |
| MuPool.EverySlotOnce | src/mu_pool.c:75-83 | after a reset, every slot is on the free list exactly once and nothing else is |
| MuPool.CountdownDistinct | src/mu_pool.c:75-83 | after a reset the free list holds distinct slots, with slot n-1 at its head |
| MuPool.Pool.Init | src/mu_pool.c:43-55 | NULL exactly when a slot is smaller than a pointer; otherwise a pool whose free list is the reset one |
| MuPool.Pool.Alloc | src/mu_pool.c:57-64 | NULL exactly when the free list is empty; otherwise pops its head slot, which is then no longer free |
| MuPool.Pool.Free | src/mu_pool.c:66-73 | NULL for a NULL slot; otherwise pushes the slot, which keeps the free list distinct if the slot was not already free |
| MuPool.Pool.Reset | src/mu_pool.c:75-83 | the free list is the one built by freeing slots 0..n-1 in order |

## Left out

- Concurrency in mu_spsc: the producer/consumer split, the memory ordering and the atomic index loads and stores are not modelled. Only the single-threaded behaviour is.
- Bytes, addresses and `memcpy`/`memmove`: a record is one array element. `item_size` matters only in the NULL/zero checks and in `SwapItems`, where a block is item_size consecutive elements.
- The pool's intrusive link: the free list is modelled as a sequence of slot indices. Storing the next pointer inside the free slot is not modelled; that is why a slot must be at least pointer-sized.
- MuPool.Pool.Free: a double free is not excluded, as in the code; the contract only says when the free list stays distinct. A foreign pointer, which the code also accepts unchecked, is excluded by a requires: a slot is named by an index below n_items, so the model cannot express a pointer outside the pool.
- NULL control blocks: the mutating operations are methods on an existing object. The query functions (`Capacity`, `Count`, `IsEmpty`, `IsFull`) do take a nullable object and model the NULL result.
- NULL control blocks in the init functions: every C init also returns NULL for a NULL control block (mu_vec.c:64, mu_pvec.c:54, mu_queue.c:50, mu_pqueue.c:49, mu_pool.c:48-50). The static `Init` methods allocate the control block, so that case cannot arise in the model.
- MuVec.Vec.SortedInsert: the item is taken as a value, not a nullable pointer. mu_vec_sorted_insert does not check its item. A NULL item would be passed to the comparator, then to mu_vec_replace or mu_vec_insert, which return PARAM. Under UPDATE_ALL it gives NONE with nothing changed. A comparator on NULL cannot be expressed over record values. (Pointer vectors store NULL as an ordinary pointer value, so MuPVec.PVec.SortedInsert has no such gap.)
- MU_STORE_ERR_INTERNAL is never produced by the modelled code, and the `default:` fallthrough of the policy switch covers only the ten declared policies.
- MuVec.Vec.Insert: a requires excludes inserting before the count into a full vector. The code's shift path has no FULL check there and would write past the capacity.
- MuPVec.PVec.Insert: a requires excludes inserting into a full vector. mu_pvec_insert checks no capacity at all.
- MuVec.Vec.SortedInsert and MuPVec.PVec.SortedInsert: a requires excludes the overrunning cases (see `SortedInsert.OverrunsOnlyFirstLast` and `SortedInsert.OverrunWitness`): INSERT_FIRST or INSERT_LAST with a match on a full vector, which reach the unchecked insert above.
- `mu_store_search` and `mu_store_psearch`: they are declared in inc/mu_store.h, but no definition is part of the sources. `MuStore.Search` models the binary search that the header describes.
- heapify_pointers and psearch: these are the same algorithms as heapify_items and search applied to pointers. One generic member (`MuSort.Heapify`, `MuStore.Search`) stands for both.
- The copy of the pointer queue inside src/mu_queue.c (lines 146-234) duplicates src/mu_pqueue.c. It is modelled once, as MuPQueue.
- MuSpsc.Spsc.Get: the NULL the code writes to the output on EMPTY is modelled as None, so a stored NULL pointer cannot be told apart from an empty buffer by the result value.
- 16-bit index arithmetic in mu_spsc: a requires restricts the store size to below 2^16. The masked wrap is modelled exactly within that range.
- The find functions' `arg` context pointer is folded into the predicate.
- Where the header comments and the code differ, the model follows the code:
  - peek on an empty vector gives INDEX, not EMPTY;
  - mu_pvec_is_full(NULL) is false, while mu_queue_is_full(NULL) is true.
