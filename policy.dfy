/** The decision logic of mu_vec_sorted_insert and mu_pvec_sorted_insert:
    one scan for the first and last item comparing equal, then a dispatch
    over the ten insertion policies.  Both containers share this logic; they
    differ only in whether an insertion at the end checks the capacity. */
module SortedInsert {
  import opened MuStore
  import opened Slots

  /** The first index whose item compares equal to x: the value first_match
      holds after the scan (None stands for SIZE_MAX). */
  function FirstMatch<T>(s: seq<T>, x: T, cmp: Cmp<T>): (r: Option<nat>)
    ensures r.Some? ==> r.value < |s|
    decreases |s|
  {
    if |s| == 0 then None
    else match FirstMatch(s[..|s| - 1], x, cmp)
      case Some(i) => Some(i)
      case None => if cmp(s[|s| - 1], x) == 0 then Some(|s| - 1) else None
  }

  /** The last index whose item compares equal to x: the value last_match
      holds after the scan. */
  function LastMatch<T>(s: seq<T>, x: T, cmp: Cmp<T>): (r: Option<nat>)
    ensures r.Some? ==> r.value < |s|
    decreases |s|
  {
    if |s| == 0 then None
    else if cmp(s[|s| - 1], x) == 0 then Some(|s| - 1)
    else LastMatch(s[..|s| - 1], x, cmp)
  }

  /** No item compares equal to x. */
  predicate NoMatch<T>(s: seq<T>, x: T, cmp: Cmp<T>)
  {
    forall k :: 0 <= k < |s| ==> cmp(s[k], x) != 0
  }

  /** FirstMatch finds a match with none before it, and finds none exactly
      when there is none. */
  lemma {:induction false} FirstMatchSpec<T>(s: seq<T>, x: T, cmp: Cmp<T>)
    ensures FirstMatch(s, x, cmp).Some? ==> cmp(s[FirstMatch(s, x, cmp).value], x) == 0
    ensures FirstMatch(s, x, cmp).Some? ==>
      forall k :: 0 <= k < FirstMatch(s, x, cmp).value ==> cmp(s[k], x) != 0
    ensures FirstMatch(s, x, cmp).None? <==> NoMatch(s, x, cmp)
    decreases |s|
  {
    if |s| > 0 {
      var p := s[..|s| - 1];
      FirstMatchSpec(p, x, cmp);
      assert forall k :: 0 <= k < |p| ==> p[k] == s[k];
    }
  }

  /** LastMatch finds a match with none after it, and finds none exactly
      when there is none. */
  lemma {:induction false} LastMatchSpec<T>(s: seq<T>, x: T, cmp: Cmp<T>)
    ensures LastMatch(s, x, cmp).Some? ==> cmp(s[LastMatch(s, x, cmp).value], x) == 0
    ensures LastMatch(s, x, cmp).Some? ==>
      forall k :: LastMatch(s, x, cmp).value < k < |s| ==> cmp(s[k], x) != 0
    ensures LastMatch(s, x, cmp).None? <==> NoMatch(s, x, cmp)
    decreases |s|
  {
    if |s| > 0 && cmp(s[|s| - 1], x) != 0 {
      var p := s[..|s| - 1];
      LastMatchSpec(p, x, cmp);
      assert forall k :: 0 <= k < |p| ==> p[k] == s[k];
    }
  }

  /** The two scans agree on whether anything matches, and the first match
      is not after the last. */
  lemma MatchesAgree<T>(s: seq<T>, x: T, cmp: Cmp<T>)
    ensures FirstMatch(s, x, cmp).None? <==> LastMatch(s, x, cmp).None?
    ensures FirstMatch(s, x, cmp).Some? ==> FirstMatch(s, x, cmp).value <= LastMatch(s, x, cmp).value
  {
    FirstMatchSpec(s, x, cmp);
    LastMatchSpec(s, x, cmp);
  }

  /** Where the default path inserts: before the first item comparing
      greater than x, or at the end when there is none. */
  function UpperBound<T>(s: seq<T>, x: T, cmp: Cmp<T>): (r: nat)
    ensures r <= |s|
    ensures forall k :: 0 <= k < r ==> cmp(s[k], x) <= 0
    ensures r < |s| ==> cmp(s[r], x) > 0
  {
    if |s| == 0 then 0
    else if cmp(s[0], x) > 0 then 0
    else 1 + UpperBound(s[1..], x, cmp)
  }

  /** The characterisation of UpperBound determines it. */
  lemma UpperBoundUnique<T>(s: seq<T>, x: T, cmp: Cmp<T>, r: nat)
    requires r <= |s|
    requires forall k :: 0 <= k < r ==> cmp(s[k], x) <= 0
    requires r < |s| ==> cmp(s[r], x) > 0
    ensures r == UpperBound(s, x, cmp)
  {
    var u := UpperBound(s, x, cmp);
    assert u < |s| ==> cmp(s[u], x) > 0;
    assert r < |s| ==> cmp(s[r], x) > 0;
  }

  /** Where the UPDATE_ALL loop stops when started at i: the first index
      from i on whose item does not compare equal to x, or the end. */
  function RunEnd<T>(s: seq<T>, x: T, cmp: Cmp<T>, i: nat): (r: nat)
    requires i <= |s|
    ensures i <= r <= |s|
    ensures forall k :: i <= k < r ==> cmp(s[k], x) == 0
    ensures r < |s| ==> cmp(s[r], x) != 0
    decreases |s| - i
  {
    if i == |s| || cmp(s[i], x) != 0 then i else RunEnd(s, x, cmp, i + 1)
  }

  /** The characterisation of RunEnd determines it. */
  lemma {:induction false} RunEndUnique<T>(s: seq<T>, x: T, cmp: Cmp<T>, i: nat, r: nat)
    requires i <= r <= |s|
    requires forall k :: i <= k < r ==> cmp(s[k], x) == 0
    requires r < |s| ==> cmp(s[r], x) != 0
    ensures r == RunEnd(s, x, cmp, i)
    decreases r - i
  {
    if i < r {
      RunEndUnique(s, x, cmp, i + 1, r);
    }
  }

  /** What the dispatch decides to do with the item. */
  datatype Action =
    | Reject(err: Err)              // return the code, change nothing
    | Replace(at: nat)              // overwrite one item
    | ReplaceRun(from: nat, to: nat) // overwrite s[from..to]
    | Insert(at: nat)               // insert at a position

  /** The two switches of the code over the policy, given what the scan
      found (first, last), whether the container is full, the upper bound
      the default path would use and where the UPDATE_ALL loop stops. */
  function Dispatch(first: Option<nat>, last: Option<nat>, full: bool, upper: nat, runEnd: nat,
                    policy: InsertPolicy): (a: Action)
    requires first.None? <==> last.None?
    ensures a.Reject? ==> a.err == ErrNotFound || a.err == ErrExists || a.err == ErrFull
    ensures a == Reject(ErrFull) ==> full
    ensures a.Replace? ==> (first.Some? && a.at == first.value) || (last.Some? && a.at == last.value)
    ensures a.ReplaceRun? ==> first.Some? && a.from == first.value && a.to == runEnd
    ensures a.Insert? ==>
      a.at == upper || (first.Some? && a.at == first.value) || (last.Some? && a.at == last.value + 1)
  {
    var default := if full then Reject(ErrFull) else Insert(upper);
    match policy
    case UpdateFirst => if first.None? then Reject(ErrNotFound) else Replace(first.value)
    case UpdateLast => if last.None? then Reject(ErrNotFound) else Replace(last.value)
    case UpdateAll => if first.None? then Reject(ErrNotFound) else ReplaceRun(first.value, runEnd)
    case UpsertFirst => if first.Some? then Replace(first.value) else default
    case UpsertLast => if last.Some? then Replace(last.value) else default
    case InsertUnique => if first.Some? then Reject(ErrExists) else default
    case InsertDuplicate =>
      if first.None? then Reject(ErrNotFound)
      else if full then Reject(ErrFull)
      else Insert(last.value + 1)
    case InsertFirst => if first.Some? then Insert(first.value) else default
    case InsertLast => if last.Some? then Insert(last.value + 1) else default
    case InsertAny => default
  }

  /** The scan followed by the dispatch. */
  function Decide<T>(s: seq<T>, cap: nat, x: T, cmp: Cmp<T>, policy: InsertPolicy): (a: Action)
    ensures a.Reject? ==> a.err == ErrNotFound || a.err == ErrExists || a.err == ErrFull
    ensures a == Reject(ErrFull) ==> |s| >= cap
    ensures a.Replace? ==> a.at < |s| && cmp(s[a.at], x) == 0
    ensures a.ReplaceRun? ==> a.from < a.to <= |s|
    ensures a.ReplaceRun? ==> forall k :: a.from <= k < a.to ==> cmp(s[k], x) == 0
    ensures a.Insert? ==> a.at <= |s|
  {
    var first, last := FirstMatch(s, x, cmp), LastMatch(s, x, cmp);
    FirstMatchSpec(s, x, cmp);
    LastMatchSpec(s, x, cmp);
    MatchesAgree(s, x, cmp);
    var runEnd := if first.Some? then RunEnd(s, x, cmp, first.value) else 0;
    Dispatch(first, last, |s| >= cap, UpperBound(s, x, cmp), runEnd, policy)
  }

  /** The policies that only overwrite. */
  predicate IsUpdate(policy: InsertPolicy) {
    policy == UpdateFirst || policy == UpdateLast || policy == UpdateAll
  }

  /** The policies that take the default sorted insertion when nothing
      matches. */
  predicate DefaultWithoutMatch(policy: InsertPolicy) {
    || policy == UpsertFirst || policy == UpsertLast || policy == InsertUnique
    || policy == InsertFirst || policy == InsertLast || policy == InsertAny
  }

  /** An insertion into a full container that no check stops: the record
      vector's insert checks the capacity only when it appends (through
      push), the pointer vector's insert never does. */
  predicate Overruns<T>(s: seq<T>, cap: nat, a: Action, appendChecksFull: bool) {
    a.Insert? && |s| >= cap && !(appendChecksFull && a.at == |s|)
  }

  /** The result code and the new contents of a sorted insertion. */
  function Outcome<T>(s: seq<T>, cap: nat, x: T, cmp: Cmp<T>, policy: InsertPolicy,
                      appendChecksFull: bool): (r: (Err, seq<T>))
    requires !Overruns(s, cap, Decide(s, cap, x, cmp, policy), appendChecksFull)
    ensures r.0 == ErrNone || r.0 == ErrNotFound || r.0 == ErrExists || r.0 == ErrFull
    ensures r.0 != ErrNone ==> r.1 == s
    ensures r.0 == ErrNone ==> |r.1| == |s| || |r.1| == |s| + 1
  {
    match Decide(s, cap, x, cmp, policy)
    case Reject(e) => (e, s)
    case Replace(i) => (ErrNone, s[i := x])
    case ReplaceRun(lo, hi) => (ErrNone, Fill(s, lo, hi, x))
    case Insert(i) =>
      if |s| >= cap then (ErrFull, s)
      else (ErrNone, InsertAt(s, i, x))
  }

  /** A sorted insertion that grows the contents adds exactly the one item
      and loses none. */
  lemma OutcomeAddsItem<T>(s: seq<T>, cap: nat, x: T, cmp: Cmp<T>, policy: InsertPolicy, b: bool)
    requires !Overruns(s, cap, Decide(s, cap, x, cmp, policy), b)
    ensures |Outcome(s, cap, x, cmp, policy, b).1| == |s| + 1 ==>
      multiset(Outcome(s, cap, x, cmp, policy, b).1) == multiset(s) + multiset{x}
  {
    var a := Decide(s, cap, x, cmp, policy);
    if a.Insert? && |s| < cap {
      InsertAtMultiset(s, a.at, x);
    }
  }

  // ---------------------------------------------------------------------
  // Properties of the dispatch

  /** The update policies never change the count, so they succeed on a
      full container; they report NOTFOUND exactly when nothing matches. */
  lemma UpdatesKeepCount<T>(s: seq<T>, cap: nat, x: T, cmp: Cmp<T>, policy: InsertPolicy, b: bool)
    requires policy == UpdateFirst || policy == UpdateLast || policy == UpdateAll
    ensures !Overruns(s, cap, Decide(s, cap, x, cmp, policy), b)
    ensures |Outcome(s, cap, x, cmp, policy, b).1| == |s|
    ensures Outcome(s, cap, x, cmp, policy, b).0 == ErrNotFound <==> FirstMatch(s, x, cmp).None?
    ensures Outcome(s, cap, x, cmp, policy, b).0 == ErrNone <==> FirstMatch(s, x, cmp).Some?
  {
    MatchesAgree(s, x, cmp);
  }

  /** UPDATE_FIRST and UPDATE_LAST overwrite the first and the last match. */
  lemma UpdateOneTarget<T>(s: seq<T>, cap: nat, x: T, cmp: Cmp<T>, policy: InsertPolicy, b: bool)
    requires policy == UpdateFirst || policy == UpdateLast
    requires FirstMatch(s, x, cmp).Some?
    ensures LastMatch(s, x, cmp).Some?
    ensures Outcome(s, cap, x, cmp, policy, b).1 ==
      s[(if policy == UpdateFirst then FirstMatch(s, x, cmp).value else LastMatch(s, x, cmp).value) := x]
  {
    MatchesAgree(s, x, cmp);
  }

  /** Items that compare equal to a common x are ordered after everything
      that precedes one of them in a sorted sequence. */
  lemma SortedEqualRun<T(!new)>(s: seq<T>, x: T, cmp: Cmp<T>, i: nat, j: nat, k: nat)
    requires Comparator(cmp) && Sorted(s, cmp)
    requires i <= k <= j < |s|
    requires cmp(s[i], x) == 0 && cmp(s[j], x) == 0
    ensures cmp(s[k], x) == 0
  {
    ComparatorFacts(cmp, s[k], s[j], x);
    ComparatorFacts(cmp, x, s[i], s[k]);
    ComparatorFacts(cmp, s[i], x, x);
    ComparatorFacts(cmp, s[k], x, x);
  }

  /** UPDATE_ALL overwrites the run of matches that starts at the first
      match. */
  lemma UpdateAllTarget<T>(s: seq<T>, cap: nat, x: T, cmp: Cmp<T>, b: bool)
    requires FirstMatch(s, x, cmp).Some?
    ensures Outcome(s, cap, x, cmp, UpdateAll, b) ==
      (ErrNone, Fill(s, FirstMatch(s, x, cmp).value, RunEnd(s, x, cmp, FirstMatch(s, x, cmp).value), x))
  {
  }

  /** On sorted contents the matches are contiguous, so the UPDATE_ALL loop
      stops right after the last match. */
  lemma RunEndAfterLastMatch<T(!new)>(s: seq<T>, x: T, cmp: Cmp<T>)
    requires Comparator(cmp) && Sorted(s, cmp)
    requires FirstMatch(s, x, cmp).Some?
    ensures LastMatch(s, x, cmp).Some?
    ensures RunEnd(s, x, cmp, FirstMatch(s, x, cmp).value) == LastMatch(s, x, cmp).value + 1
  {
    FirstMatchSpec(s, x, cmp);
    LastMatchSpec(s, x, cmp);
    var f := FirstMatch(s, x, cmp).value;
    MatchesAgree(s, x, cmp);
    var l := LastMatch(s, x, cmp).value;
    var e := RunEnd(s, x, cmp, f);
    assert e <= l ==> cmp(s[e], x) == 0 by {
      if e <= l {
        SortedEqualRun(s, x, cmp, f, l, e);
      }
    }
  }

  /** On sorted contents UPDATE_ALL overwrites exactly the items that
      compare equal to x. */
  lemma UpdateAllCoversMatches<T(!new)>(s: seq<T>, cap: nat, x: T, cmp: Cmp<T>, b: bool)
    requires Comparator(cmp) && Sorted(s, cmp)
    requires FirstMatch(s, x, cmp).Some?
    ensures forall k :: 0 <= k < |s| ==>
      Outcome(s, cap, x, cmp, UpdateAll, b).1[k] == if cmp(s[k], x) == 0 then x else s[k]
  {
    FirstMatchSpec(s, x, cmp);
    LastMatchSpec(s, x, cmp);
    UpdateAllTarget(s, cap, x, cmp, b);
    RunEndAfterLastMatch(s, x, cmp);
    var f, l := FirstMatch(s, x, cmp).value, LastMatch(s, x, cmp).value;
    var t := Outcome(s, cap, x, cmp, UpdateAll, b).1;
    forall k | 0 <= k < |s|
      ensures t[k] == if cmp(s[k], x) == 0 then x else s[k]
    {
      assert cmp(s[k], x) == 0 ==> f <= k <= l;
    }
  }

  /** The precedence of the checks on a full container: EXISTS for a unique
      item that matches and NOTFOUND for an update or a duplicate that does
      not match come before FULL; only INSERT_FIRST and INSERT_LAST with a
      match get as far as an insertion. */
  lemma FullContainer<T>(s: seq<T>, cap: nat, x: T, cmp: Cmp<T>, policy: InsertPolicy)
    requires |s| >= cap
    ensures Decide(s, cap, x, cmp, policy) == Reject(ErrExists) <==>
      policy == InsertUnique && FirstMatch(s, x, cmp).Some?
    ensures Decide(s, cap, x, cmp, policy) == Reject(ErrNotFound) <==>
      (IsUpdate(policy) || policy == InsertDuplicate) && FirstMatch(s, x, cmp).None?
    ensures Decide(s, cap, x, cmp, policy) == Reject(ErrFull) <==>
      || policy == InsertAny
      || (policy == InsertDuplicate && FirstMatch(s, x, cmp).Some?)
      || (DefaultWithoutMatch(policy) && FirstMatch(s, x, cmp).None?)
    ensures Decide(s, cap, x, cmp, policy).Insert? <==>
      (policy == InsertFirst || policy == InsertLast) && FirstMatch(s, x, cmp).Some?
  {
    MatchesAgree(s, x, cmp);
  }

  /** With room to spare only the missing match of an update or a duplicate
      and the existing match of a unique insertion are rejected. */
  lemma RoomToSpare<T>(s: seq<T>, cap: nat, x: T, cmp: Cmp<T>, policy: InsertPolicy)
    requires |s| < cap
    ensures Decide(s, cap, x, cmp, policy) == Reject(ErrExists) <==>
      policy == InsertUnique && FirstMatch(s, x, cmp).Some?
    ensures Decide(s, cap, x, cmp, policy) == Reject(ErrNotFound) <==>
      (IsUpdate(policy) || policy == InsertDuplicate) && FirstMatch(s, x, cmp).None?
    ensures Decide(s, cap, x, cmp, policy) != Reject(ErrFull)
    ensures Decide(s, cap, x, cmp, policy).Insert? ==>
      || Decide(s, cap, x, cmp, policy).at == UpperBound(s, x, cmp)
      || (policy == InsertFirst && FirstMatch(s, x, cmp).Some? &&
          Decide(s, cap, x, cmp, policy).at == FirstMatch(s, x, cmp).value)
      || ((policy == InsertLast || policy == InsertDuplicate) && FirstMatch(s, x, cmp).Some?)
  {
    MatchesAgree(s, x, cmp);
  }

  /** Only INSERT_FIRST and INSERT_LAST with a match on a full container
      reach an insertion without a capacity check. */
  lemma OverrunsOnlyFirstLast<T>(s: seq<T>, cap: nat, x: T, cmp: Cmp<T>, policy: InsertPolicy, b: bool)
    requires Overruns(s, cap, Decide(s, cap, x, cmp, policy), b)
    ensures policy == InsertFirst || policy == InsertLast
    ensures |s| >= cap && FirstMatch(s, x, cmp).Some?
    ensures b && policy == InsertLast ==> LastMatch(s, x, cmp).Some? && LastMatch(s, x, cmp).value + 1 < |s|
  {
    MatchesAgree(s, x, cmp);
  }

  /** Three-way comparison of integers, for the concrete scenarios. */
  function IntCmp(a: int, b: int): (c: int)
    ensures c < 0 <==> a < b
    ensures c == 0 <==> a == b
  {
    a - b
  }

  /** A full container [5] of capacity 1 and the item 5: INSERT_FIRST
      overruns both vectors, INSERT_LAST overruns the pointer vector while
      the record vector's push reports FULL.  On the full [5, 7] INSERT_LAST
      overruns the record vector too, through the shifting path. */
  lemma OverrunWitness()
    ensures Decide([5], 1, 5, IntCmp, InsertFirst) == Insert(0)
    ensures Overruns([5], 1, Insert(0), true) && Overruns([5], 1, Insert(0), false)
    ensures Decide([5], 1, 5, IntCmp, InsertLast) == Insert(1)
    ensures Overruns([5], 1, Insert(1), false)
    ensures Outcome([5], 1, 5, IntCmp, InsertLast, true) == (ErrFull, [5])
    ensures Decide([5, 7], 2, 5, IntCmp, InsertLast) == Insert(1)
    ensures Overruns([5, 7], 2, Insert(1), true)
  {
    assert FirstMatch([5], 5, IntCmp) == Some(0) && LastMatch([5], 5, IntCmp) == Some(0) by {
      assert [5][..0] == [];
    }
    assert LastMatch([5, 7], 5, IntCmp) == Some(0) by {
      assert [5, 7][..1] == [5];
      assert [5][..0] == [];
    }
  }

  // ---------------------------------------------------------------------
  // Positions on sorted contents

  /** On sorted contents with a match the first match is the lower bound
      that mu_store_search returns. */
  lemma FirstMatchIsSearch<T(!new)>(s: seq<T>, x: T, cmp: Cmp<T>)
    requires Comparator(cmp) && Sorted(s, cmp)
    requires FirstMatch(s, x, cmp).Some?
    ensures FirstMatch(s, x, cmp).value == Search(s, cmp, x)
  {
    FirstMatchSpec(s, x, cmp);
    var f := FirstMatch(s, x, cmp).value;
    ComparatorFacts(cmp, s[f], x, x);
    SearchFindsFirstOfRun(s, cmp, x, f);
    var r := Search(s, cmp, x);
    ComparatorFacts(cmp, x, s[r], s[r]);
  }

  /** On sorted contents with a match the upper bound is one past the last
      match: the default path puts a new equal item after the existing
      ones, where INSERT_LAST and INSERT_DUPLICATE put it. */
  lemma UpperBoundAfterLastMatch<T(!new)>(s: seq<T>, x: T, cmp: Cmp<T>)
    requires Comparator(cmp) && Sorted(s, cmp)
    requires LastMatch(s, x, cmp).Some?
    ensures UpperBound(s, x, cmp) == LastMatch(s, x, cmp).value + 1
  {
    var l := LastMatch(s, x, cmp).value;
    forall k | 0 <= k < l + 1
      ensures cmp(s[k], x) <= 0
    {
      ComparatorFacts(cmp, s[k], s[l], x);
    }
    if l + 1 < |s| {
      ComparatorFacts(cmp, x, s[l], s[l + 1]);
      ComparatorFacts(cmp, s[l], x, x);
      ComparatorFacts(cmp, s[l + 1], x, x);
    }
    UpperBoundUnique(s, x, cmp, l + 1);
  }

  /** Without a match the upper bound is the lower bound of mu_store_search,
      so UPSERT_FIRST, UPSERT_LAST and the other policies that fall through
      insert where the search says. */
  lemma UpperBoundIsSearchWithoutMatch<T(!new)>(s: seq<T>, x: T, cmp: Cmp<T>)
    requires Comparator(cmp) && Sorted(s, cmp)
    requires FirstMatch(s, x, cmp).None?
    ensures UpperBound(s, x, cmp) == Search(s, cmp, x)
  {
    FirstMatchSpec(s, x, cmp);
    SearchIsLowerBound(s, cmp, x);
    var r := Search(s, cmp, x);
    forall k | 0 <= k < r
      ensures cmp(s[k], x) <= 0
    {
      ComparatorFacts(cmp, x, s[k], s[k]);
    }
    if r < |s| {
      ComparatorFacts(cmp, x, s[r], s[r]);
      ComparatorFacts(cmp, s[r], x, x);
    }
    UpperBoundUnique(s, x, cmp, r);
  }

  /** With a match INSERT_FIRST inserts at the first match and INSERT_LAST
      one past the last match, whatever the room; INSERT_DUPLICATE does as
      INSERT_LAST when there is room to spare. */
  lemma InsertTargetsWithMatch<T>(s: seq<T>, cap: nat, x: T, cmp: Cmp<T>, policy: InsertPolicy)
    requires policy == InsertFirst || policy == InsertLast || policy == InsertDuplicate
    requires (|s| < cap || policy != InsertDuplicate) && FirstMatch(s, x, cmp).Some?
    ensures LastMatch(s, x, cmp).Some?
    ensures Decide(s, cap, x, cmp, policy) ==
      Insert(if policy == InsertFirst then FirstMatch(s, x, cmp).value else LastMatch(s, x, cmp).value + 1)
  {
    var first, last := FirstMatch(s, x, cmp), LastMatch(s, x, cmp);
    MatchesAgree(s, x, cmp);
    var runEnd := RunEnd(s, x, cmp, first.value);
    assert Decide(s, cap, x, cmp, policy) == Dispatch(first, last, |s| >= cap, UpperBound(s, x, cmp), runEnd, policy);
  }

  /** The outcome of INSERT_FIRST, INSERT_LAST and INSERT_DUPLICATE when an
      item matches: FULL on a full container, otherwise an insertion at the
      first match or one past the last. */
  lemma NextToMatchOutcome<T>(s: seq<T>, cap: nat, x: T, cmp: Cmp<T>, policy: InsertPolicy, b: bool)
    requires policy == InsertFirst || policy == InsertLast || policy == InsertDuplicate
    requires FirstMatch(s, x, cmp).Some?
    requires !Overruns(s, cap, Decide(s, cap, x, cmp, policy), b)
    ensures LastMatch(s, x, cmp).Some?
    ensures |s| >= cap ==>
      policy == InsertDuplicate || (b && policy == InsertLast && LastMatch(s, x, cmp).value + 1 == |s|)
    ensures Outcome(s, cap, x, cmp, policy, b) ==
      if |s| >= cap then (ErrFull, s)
      else (ErrNone, InsertAt(s, if policy == InsertFirst then FirstMatch(s, x, cmp).value
                                 else LastMatch(s, x, cmp).value + 1, x))
  {
    MatchesAgree(s, x, cmp);
    if |s| >= cap && policy == InsertDuplicate {
      FullContainer(s, cap, x, cmp, policy);
    } else {
      InsertTargetsWithMatch(s, cap, x, cmp, policy);
      var at := if policy == InsertFirst then FirstMatch(s, x, cmp).value else LastMatch(s, x, cmp).value + 1;
      assert Decide(s, cap, x, cmp, policy) == Insert(at);
      if |s| < cap {
        assert Outcome(s, cap, x, cmp, policy, b) == (ErrNone, InsertAt(s, at, x));
      }
    }
  }

  /** INSERT_ANY, and without a match the upserts and the inserting
      policies other than INSERT_DUPLICATE, take the default path: FULL on a
      full container, otherwise an insertion at the upper bound. */
  lemma TakesDefaultPath<T>(s: seq<T>, cap: nat, x: T, cmp: Cmp<T>, policy: InsertPolicy)
    requires policy == InsertAny || (DefaultWithoutMatch(policy) && FirstMatch(s, x, cmp).None?)
    ensures Decide(s, cap, x, cmp, policy) ==
      if |s| >= cap then Reject(ErrFull) else Insert(UpperBound(s, x, cmp))
  {
    MatchesAgree(s, x, cmp);
  }

  /** On sorted contents INSERT_LAST and INSERT_DUPLICATE insert where the
      default path does, after the existing equal items. */
  lemma InsertLastIsUpperBound<T(!new)>(s: seq<T>, cap: nat, x: T, cmp: Cmp<T>, policy: InsertPolicy)
    requires policy == InsertLast || policy == InsertDuplicate
    requires Comparator(cmp) && Sorted(s, cmp)
    requires |s| < cap && FirstMatch(s, x, cmp).Some?
    ensures Decide(s, cap, x, cmp, policy) == Insert(UpperBound(s, x, cmp))
  {
    InsertTargetsWithMatch(s, cap, x, cmp, policy);
    UpperBoundAfterLastMatch(s, x, cmp);
  }

  // ---------------------------------------------------------------------
  // Sortedness

  /** Swapping items for equivalent ones keeps a sequence sorted. */
  lemma EquivalentKeepsSorted<T(!new)>(s: seq<T>, t: seq<T>, cmp: Cmp<T>)
    requires Comparator(cmp) && Sorted(s, cmp)
    requires |t| == |s|
    requires forall k :: 0 <= k < |s| ==> cmp(s[k], t[k]) == 0
    ensures Sorted(t, cmp)
  {
    forall p, q | 0 <= p < q < |t|
      ensures cmp(t[p], t[q]) <= 0
    {
      ComparatorFacts(cmp, s[p], t[p], t[p]);
      ComparatorFacts(cmp, t[p], s[p], s[q]);
      ComparatorFacts(cmp, t[p], s[q], t[q]);
    }
  }

  /** Inserting x where everything before is not above it and everything
      after is not below it keeps a sequence sorted. */
  lemma InsertKeepsSorted<T>(s: seq<T>, i: nat, x: T, cmp: Cmp<T>)
    requires Sorted(s, cmp) && i <= |s|
    requires forall k :: 0 <= k < i ==> cmp(s[k], x) <= 0
    requires forall k :: i <= k < |s| ==> cmp(x, s[k]) <= 0
    ensures Sorted(InsertAt(s, i, x), cmp)
  {
    var t := InsertAt(s, i, x);
    forall p, q | 0 <= p < q < |t|
      ensures cmp(t[p], t[q]) <= 0
    {
      if q < i {
        assert t[p] == s[p] && t[q] == s[q];
      } else if q == i {
        assert t[p] == s[p];
      } else if p < i {
        assert t[p] == s[p] && t[q] == s[q - 1];
      } else if p == i {
        assert t[q] == s[q - 1];
      } else {
        assert t[p] == s[p - 1] && t[q] == s[q - 1];
      }
    }
  }

  /** Every policy keeps sorted contents sorted. */
  lemma OutcomeKeepsSorted<T(!new)>(s: seq<T>, cap: nat, x: T, cmp: Cmp<T>, policy: InsertPolicy, b: bool)
    requires Comparator(cmp) && Sorted(s, cmp)
    requires !Overruns(s, cap, Decide(s, cap, x, cmp, policy), b)
    ensures Sorted(Outcome(s, cap, x, cmp, policy, b).1, cmp)
  {
    var a := Decide(s, cap, x, cmp, policy);
    var t := Outcome(s, cap, x, cmp, policy, b).1;
    match a
    case Reject(_) =>
    case Replace(i) =>
      forall k | 0 <= k < |s|
        ensures cmp(s[k], t[k]) == 0
      {
        ComparatorFacts(cmp, s[k], s[k], s[k]);
      }
      EquivalentKeepsSorted(s, t, cmp);
    case ReplaceRun(lo, hi) =>
      forall k | 0 <= k < |s|
        ensures cmp(s[k], t[k]) == 0
      {
        ComparatorFacts(cmp, s[k], s[k], s[k]);
      }
      EquivalentKeepsSorted(s, t, cmp);
    case Insert(i) =>
      if |s| < cap {
        RoomToSpare(s, cap, x, cmp, policy);
        if FirstMatch(s, x, cmp).Some? {
          if policy == InsertFirst {
            FirstMatchIsSearch(s, x, cmp);
          } else if policy == InsertLast || policy == InsertDuplicate {
            InsertLastIsUpperBound(s, cap, x, cmp, policy);
          }
        }
        InsertAtUpperOrLower(s, x, cmp);
      }
  }

  /** Inserting at the upper bound or at the lower bound keeps sorted
      contents sorted. */
  lemma InsertAtUpperOrLower<T(!new)>(s: seq<T>, x: T, cmp: Cmp<T>)
    requires Comparator(cmp) && Sorted(s, cmp)
    ensures Sorted(InsertAt(s, UpperBound(s, x, cmp), x), cmp)
    ensures Sorted(InsertAt(s, Search(s, cmp, x), x), cmp)
  {
    var u := UpperBound(s, x, cmp);
    forall k | u <= k < |s|
      ensures cmp(x, s[k]) <= 0
    {
      ComparatorFacts(cmp, s[u], x, x);
      ComparatorFacts(cmp, x, s[u], s[k]);
    }
    InsertKeepsSorted(s, u, x, cmp);
    SearchIsLowerBound(s, cmp, x);
    var l := Search(s, cmp, x);
    forall k | 0 <= k < l
      ensures cmp(s[k], x) <= 0
    {
      ComparatorFacts(cmp, x, s[k], s[k]);
    }
    InsertKeepsSorted(s, l, x, cmp);
  }

  /** After a successful INSERT_UNIQUE a second one with the same item
      reports EXISTS. */
  lemma UniqueTwice<T(!new)>(s: seq<T>, cap: nat, x: T, cmp: Cmp<T>, b: bool)
    requires Comparator(cmp)
    requires !Overruns(s, cap, Decide(s, cap, x, cmp, InsertUnique), b)
    requires Outcome(s, cap, x, cmp, InsertUnique, b).0 == ErrNone
    ensures Decide(Outcome(s, cap, x, cmp, InsertUnique, b).1, cap, x, cmp, InsertUnique) == Reject(ErrExists)
  {
    var t := Outcome(s, cap, x, cmp, InsertUnique, b).1;
    var i := Decide(s, cap, x, cmp, InsertUnique).at;
    assert t[i] == x;
    ComparatorFacts(cmp, x, x, x);
    FirstMatchSpec(t, x, cmp);
  }
}
