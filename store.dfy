/** Definitions shared by every container of the family: the result codes,
    the insertion policies of sorted containers, the contract a comparison
    function has to meet, and the lower-bound search over a sorted array. */
module MuStore {

  datatype Option<T> = None | Some(value: T)

  /** The shared result taxonomy (mu_store_err_t). */
  datatype Err =
    | ErrNone      // no error
    | ErrParam     // illegal parameter
    | ErrIndex     // index out of bounds
    | ErrNotFound  // search, find or update found nothing
    | ErrEmpty     // read from an empty store
    | ErrFull      // write to a full store
    | ErrExists    // unique insertion hit an existing item
    | ErrInternal  // unexpected internal state

  /** The numeric value the C enumeration gives each result code. */
  function ErrCode(e: Err): (c: nat)
    ensures c < 8
  {
    match e
    case ErrNone => 0
    case ErrParam => 1
    case ErrIndex => 2
    case ErrNotFound => 3
    case ErrEmpty => 4
    case ErrFull => 5
    case ErrExists => 6
    case ErrInternal => 7
  }

  /** Decoding a numeric result code: exactly the values 0..7 are codes. */
  function ErrOfCode(c: nat): (r: Option<Err>)
    ensures r.Some? <==> c < 8
    ensures r.Some? ==> ErrCode(r.value) == c
  {
    if c == 0 then Some(ErrNone)
    else if c == 1 then Some(ErrParam)
    else if c == 2 then Some(ErrIndex)
    else if c == 3 then Some(ErrNotFound)
    else if c == 4 then Some(ErrEmpty)
    else if c == 5 then Some(ErrFull)
    else if c == 6 then Some(ErrExists)
    else if c == 7 then Some(ErrInternal)
    else None
  }

  /** How a sorted container treats an item that may compare equal to stored
      ones (mu_store_insert_policy_t). */
  datatype InsertPolicy =
    | InsertAny        // insert at any valid position
    | InsertFirst      // insert before all matching items
    | InsertLast       // insert after all matching items
    | UpdateFirst      // replace the first matching item
    | UpdateLast       // replace the last matching item
    | UpdateAll        // replace all matching items
    | UpsertFirst      // update the first match if any, else insert
    | UpsertLast       // update the last match if any, else insert
    | InsertUnique     // insert only if no item matches
    | InsertDuplicate  // insert only if some item matches

  /** The numeric value the C enumeration gives each policy. */
  function PolicyCode(p: InsertPolicy): (c: nat)
    ensures c < 10
  {
    match p
    case InsertAny => 0
    case InsertFirst => 1
    case InsertLast => 2
    case UpdateFirst => 3
    case UpdateLast => 4
    case UpdateAll => 5
    case UpsertFirst => 6
    case UpsertLast => 7
    case InsertUnique => 8
    case InsertDuplicate => 9
  }

  /** Decoding a numeric policy: exactly the values 0..9 are policies. */
  function PolicyOfCode(c: nat): (r: Option<InsertPolicy>)
    ensures r.Some? <==> c < 10
    ensures r.Some? ==> PolicyCode(r.value) == c
  {
    if c == 0 then Some(InsertAny)
    else if c == 1 then Some(InsertFirst)
    else if c == 2 then Some(InsertLast)
    else if c == 3 then Some(UpdateFirst)
    else if c == 4 then Some(UpdateLast)
    else if c == 5 then Some(UpdateAll)
    else if c == 6 then Some(UpsertFirst)
    else if c == 7 then Some(UpsertLast)
    else if c == 8 then Some(InsertUnique)
    else if c == 9 then Some(InsertDuplicate)
    else None
  }

  /** A three-way comparison: negative, zero or positive (mu_store_compare_fn).
      The caller passes the function; NULL comparators are not modelled here. */
  type Cmp<!T> = (T, T) -> int

  /** Exchanging the arguments flips the sign of the comparison. */
  ghost predicate FlipAt<T>(cmp: Cmp<T>, a: T, b: T) {
    cmp(a, b) > 0 <==> cmp(b, a) < 0
  }

  /** "Not above" is transitive. */
  ghost predicate TransAt<T>(cmp: Cmp<T>, a: T, b: T, c: T) {
    cmp(a, b) <= 0 && cmp(b, c) <= 0 ==> cmp(a, c) <= 0
  }

  /** What sort and search rely on and never check: the comparison is a
      total preorder whose sign flips when the arguments are exchanged.
      The laws are stated through FlipAt and TransAt, so that they are
      applied where ComparatorFacts asks for them. */
  ghost predicate Comparator<T(!new)>(cmp: Cmp<T>) {
    && (forall a, b {:trigger FlipAt(cmp, a, b)} :: FlipAt(cmp, a, b))
    && (forall a, b, c {:trigger TransAt(cmp, a, b, c)} :: TransAt(cmp, a, b, c))
  }

  /** Ascending order under cmp. */
  ghost predicate Sorted<T>(s: seq<T>, cmp: Cmp<T>) {
    forall i, j :: 0 <= i < j < |s| ==> cmp(s[i], s[j]) <= 0
  }

  /** The consequences of the comparator laws for three items. */
  lemma ComparatorFacts<T(!new)>(cmp: Cmp<T>, a: T, b: T, c: T)
    requires Comparator(cmp)
    ensures cmp(a, a) == 0
    ensures cmp(a, b) > 0 <==> cmp(b, a) < 0
    ensures cmp(a, b) == 0 <==> cmp(b, a) == 0
    ensures cmp(a, b) <= 0 && cmp(b, c) <= 0 ==> cmp(a, c) <= 0
    ensures cmp(a, b) < 0 && cmp(b, c) <= 0 ==> cmp(a, c) < 0
    ensures cmp(a, b) <= 0 && cmp(b, c) < 0 ==> cmp(a, c) < 0
    ensures cmp(a, b) == 0 && cmp(b, c) == 0 ==> cmp(a, c) == 0
  {
    assert FlipAt(cmp, a, a) && FlipAt(cmp, a, b) && FlipAt(cmp, b, a);
    assert FlipAt(cmp, b, c) && FlipAt(cmp, c, b) && FlipAt(cmp, a, c) && FlipAt(cmp, c, a);
    assert TransAt(cmp, a, b, c) && TransAt(cmp, c, a, b) && TransAt(cmp, b, c, a);
    assert TransAt(cmp, c, b, a) && TransAt(cmp, b, a, c) && TransAt(cmp, a, c, b);
  }

  /** Binary search for the lower bound in s[lo..hi]. */
  function SearchRange<T>(s: seq<T>, cmp: Cmp<T>, x: T, lo: nat, hi: nat): (r: nat)
    requires lo <= hi <= |s|
    ensures lo <= r <= hi
    decreases hi - lo
  {
    if lo == hi then lo
    else
      var mid := lo + (hi - lo) / 2;
      if cmp(x, s[mid]) > 0 then SearchRange(s, cmp, x, mid + 1, hi)
      else SearchRange(s, cmp, x, lo, mid)
  }

  /** mu_store_search and mu_store_psearch: the index at which x is to be
      inserted into the sorted array s.  With stored values as the model's
      elements both variants call the comparator as cmp(x, s[i]). */
  function Search<T>(s: seq<T>, cmp: Cmp<T>, x: T): (r: nat)
    ensures r <= |s|
  {
    SearchRange(s, cmp, x, 0, |s|)
  }

  /** Reference definition of the lower bound by a linear scan: the first
      index whose element does not compare below x. */
  function LowerBound<T>(s: seq<T>, cmp: Cmp<T>, x: T): (r: nat)
    ensures r <= |s|
    ensures forall k :: 0 <= k < r ==> cmp(x, s[k]) > 0
    ensures r < |s| ==> cmp(x, s[r]) <= 0
  {
    if |s| == 0 then 0
    else if cmp(x, s[0]) <= 0 then 0
    else 1 + LowerBound(s[1..], cmp, x)
  }

  lemma {:induction false} SearchRangeIsLowerBound<T(!new)>(s: seq<T>, cmp: Cmp<T>, x: T, lo: nat, hi: nat)
    requires Comparator(cmp) && Sorted(s, cmp)
    requires lo <= hi <= |s|
    requires forall k :: 0 <= k < lo ==> cmp(x, s[k]) > 0
    requires forall k :: hi <= k < |s| ==> cmp(x, s[k]) <= 0
    ensures forall k :: 0 <= k < SearchRange(s, cmp, x, lo, hi) ==> cmp(x, s[k]) > 0
    ensures forall k :: SearchRange(s, cmp, x, lo, hi) <= k < |s| ==> cmp(x, s[k]) <= 0
    decreases hi - lo
  {
    if lo < hi {
      var mid := lo + (hi - lo) / 2;
      if cmp(x, s[mid]) > 0 {
        forall k | 0 <= k < mid + 1 ensures cmp(x, s[k]) > 0 {
          if k < mid {
            ComparatorFacts(cmp, x, s[mid], s[mid]);
            ComparatorFacts(cmp, s[k], s[mid], x);
            ComparatorFacts(cmp, x, s[k], s[k]);
          }
        }
        SearchRangeIsLowerBound(s, cmp, x, mid + 1, hi);
      } else {
        forall k | mid <= k < |s| ensures cmp(x, s[k]) <= 0 {
          if mid < k {
            ComparatorFacts(cmp, x, s[mid], s[k]);
          }
        }
        SearchRangeIsLowerBound(s, cmp, x, lo, mid);
      }
    }
  }

  /** On a sorted array the search returns the lower bound: every earlier
      element compares strictly below x, every later one not below it. */
  lemma SearchIsLowerBound<T(!new)>(s: seq<T>, cmp: Cmp<T>, x: T)
    requires Comparator(cmp) && Sorted(s, cmp)
    ensures Search(s, cmp, x) <= |s|
    ensures Search(s, cmp, x) < |s| ==> cmp(x, s[Search(s, cmp, x)]) <= 0
    ensures forall k :: 0 <= k < Search(s, cmp, x) ==> cmp(x, s[k]) > 0
    ensures forall k :: Search(s, cmp, x) <= k < |s| ==> cmp(x, s[k]) <= 0
  {
    SearchRangeIsLowerBound(s, cmp, x, 0, |s|);
  }

  /** The binary search agrees with the linear reference definition. */
  lemma SearchIsLinearLowerBound<T(!new)>(s: seq<T>, cmp: Cmp<T>, x: T)
    requires Comparator(cmp) && Sorted(s, cmp)
    ensures Search(s, cmp, x) == LowerBound(s, cmp, x)
  {
    SearchIsLowerBound(s, cmp, x);
    var r, l := Search(s, cmp, x), LowerBound(s, cmp, x);
    assert r < |s| ==> cmp(x, s[r]) <= 0;
    assert l < |s| ==> cmp(x, s[l]) <= 0;
  }

  /** For a run of elements equal to x the search lands on the run's first
      element; an x above every element gives |s|. */
  lemma SearchFindsFirstOfRun<T(!new)>(s: seq<T>, cmp: Cmp<T>, x: T, j: nat)
    requires Comparator(cmp) && Sorted(s, cmp)
    requires j < |s| && cmp(x, s[j]) == 0
    ensures Search(s, cmp, x) <= j
    ensures cmp(x, s[Search(s, cmp, x)]) == 0
    ensures forall k :: 0 <= k < Search(s, cmp, x) ==> cmp(x, s[k]) != 0
  {
    SearchIsLowerBound(s, cmp, x);
    var r := Search(s, cmp, x);
    if r < j {
      ComparatorFacts(cmp, x, s[j], s[j]);
      ComparatorFacts(cmp, s[r], s[j], x);
      ComparatorFacts(cmp, s[r], x, x);
    }
  }

  lemma SearchAboveAll<T(!new)>(s: seq<T>, cmp: Cmp<T>, x: T)
    requires Comparator(cmp) && Sorted(s, cmp)
    requires forall k :: 0 <= k < |s| ==> cmp(x, s[k]) > 0
    ensures Search(s, cmp, x) == |s|
  {
    SearchIsLowerBound(s, cmp, x);
  }
}
