/** The swap helpers and the in-place heapsort behind mu_store_sort and
    mu_store_psort.  An array element of the model is one stored item (a
    record for the item variant, a pointer value for the pointer variant);
    the byte-level block swap is modelled separately by SwapItems. */
module MuSort {
  import opened MuStore

  // ---------------------------------------------------------------------
  // Swapping

  /** mu_store_swap_items: exchanges two blocks of itemSize storage units,
      one at a[ai..] and one at b[bi..]; nothing happens when either
      location is NULL.  The blocks must not partially overlap; a block
      swapped with itself stays as it is. */
  method SwapItems<T>(a: array?<T>, ai: nat, b: array?<T>, bi: nat, itemSize: nat)
    requires a != null ==> ai + itemSize <= a.Length
    requires b != null ==> bi + itemSize <= b.Length
    requires a != null && a == b ==> ai == bi || ai + itemSize <= bi || bi + itemSize <= ai
    modifies a, b
    ensures a == null || b == null ==> (a != null ==> a[..] == old(a[..])) && (b != null ==> b[..] == old(b[..]))
    ensures a != null && b != null ==>
      forall p :: ai <= p < ai + itemSize ==> a[p] == old(b[p - ai + bi])
    ensures a != null && b != null ==>
      forall p :: bi <= p < bi + itemSize ==> b[p] == old(a[p - bi + ai])
    ensures a != null && b != null ==>
      forall p :: (0 <= p < a.Length && !(ai <= p < ai + itemSize) && (a == b ==> !(bi <= p < bi + itemSize)))
        ==> a[p] == old(a[p])
    ensures a != null && b != null ==>
      forall p :: (0 <= p < b.Length && !(bi <= p < bi + itemSize) && (a == b ==> !(ai <= p < ai + itemSize)))
        ==> b[p] == old(b[p])
  {
    if a == null || b == null {
      return;
    }
    var k := 0;
    while k < itemSize
      invariant 0 <= k <= itemSize
      invariant forall p :: ai <= p < ai + k ==> a[p] == old(b[p - ai + bi])
      invariant forall p :: bi <= p < bi + k ==> b[p] == old(a[p - bi + ai])
      invariant forall p :: (0 <= p < a.Length && !(ai <= p < ai + k) && (a == b ==> !(bi <= p < bi + k))) ==> a[p] == old(a[p])
      invariant forall p :: (0 <= p < b.Length && !(bi <= p < bi + k) && (a == b ==> !(ai <= p < ai + k))) ==> b[p] == old(b[p])
    {
      var tmp := a[ai + k];
      a[ai + k] := b[bi + k];
      b[bi + k] := tmp;
      k := k + 1;
    }
  }

  /** mu_store_swap_pointers: exchanges the pointer values held at a[i] and
      b[j]; nothing happens when either location is NULL. */
  method SwapPointers<P>(a: array?<P>, i: nat, b: array?<P>, j: nat)
    requires a != null ==> i < a.Length
    requires b != null ==> j < b.Length
    modifies a, b
    ensures a == null || b == null ==> (a != null ==> a[..] == old(a[..])) && (b != null ==> b[..] == old(b[..]))
    ensures a != null && a == b ==> a[..] == old(a[..])[i := old(a[j])][j := old(a[i])]
    ensures a != null && b != null && a != b ==>
      a[..] == old(a[..])[i := old(b[j])] && b[..] == old(b[..])[j := old(a[i])]
  {
    if a == null || b == null {
      return;
    }
    var tmp := a[i];
    a[i] := b[j];
    b[j] := tmp;
  }

  /** The private swap the heapsort applies to two slots of its array. */
  method SwapAt<T>(a: array<T>, i: nat, j: nat)
    requires i < a.Length && j < a.Length
    modifies a
    ensures a[..] == old(a[..])[i := old(a[j])][j := old(a[i])]
    ensures a[i] == old(a[j]) && a[j] == old(a[i])
    ensures forall k :: 0 <= k < a.Length && k != i && k != j ==> a[k] == old(a[k])
    ensures multiset(a[..]) == multiset(old(a[..]))
  {
    var tmp := a[i];
    a[i] := a[j];
    a[j] := tmp;
  }

  // ---------------------------------------------------------------------
  // The max-heap invariant

  /** Every child of node i inside the heap of size n is not above s[p]. */
  ghost predicate Dominates<T>(s: seq<T>, n: nat, p: nat, i: nat, cmp: Cmp<T>)
    requires n <= |s| && p < |s|
  {
    && (2 * i + 1 < n ==> cmp(s[2 * i + 1], s[p]) <= 0)
    && (2 * i + 2 < n ==> cmp(s[2 * i + 2], s[p]) <= 0)
  }

  /** The max-heap property holds at every node of [lo, n) except i. */
  ghost predicate HeapExcept<T>(s: seq<T>, n: nat, lo: nat, i: nat, cmp: Cmp<T>)
    requires n <= |s|
  {
    forall k :: lo <= k < n && k != i ==> Dominates(s, n, k, k, cmp)
  }

  /** The max-heap property holds at every node of [lo, n). */
  ghost predicate HeapFrom<T>(s: seq<T>, n: nat, lo: nat, cmp: Cmp<T>)
    requires n <= |s|
  {
    forall k :: lo <= k < n ==> Dominates(s, n, k, k, cmp)
  }

  /** In a max-heap no element is above the root. */
  lemma {:induction false} RootDominates<T(!new)>(s: seq<T>, n: nat, k: nat, cmp: Cmp<T>)
    requires Comparator(cmp)
    requires k < n <= |s| && HeapFrom(s, n, 0, cmp)
    ensures cmp(s[k], s[0]) <= 0
    decreases k
  {
    if k == 0 {
      ComparatorFacts(cmp, s[0], s[0], s[0]);
    } else {
      var p := (k - 1) / 2;
      RootDominates(s, n, p, cmp);
      assert Dominates(s, n, p, p, cmp);
      ComparatorFacts(cmp, s[k], s[p], s[0]);
    }
  }

  /** What the two comparisons of a sift-down step establish: the chosen
      node is the largest of i and its children, and it differs from i only
      when that child is strictly above s[i]. */
  lemma LargestOfThree<T(!new)>(s: seq<T>, n: nat, i: nat, afterLeft: nat, largest: nat, cmp: Cmp<T>)
    requires Comparator(cmp)
    requires i < n <= |s|
    requires afterLeft == i || afterLeft == 2 * i + 1
    requires afterLeft == 2 * i + 1 <==> 2 * i + 1 < n && cmp(s[2 * i + 1], s[i]) > 0
    requires largest == afterLeft || largest == 2 * i + 2
    requires largest == 2 * i + 2 <==> 2 * i + 2 < n && cmp(s[2 * i + 2], s[afterLeft]) > 0
    ensures largest < n
    ensures Dominates(s, n, largest, i, cmp)
    ensures largest != i ==> cmp(s[largest], s[i]) > 0
  {
    var l, r := 2 * i + 1, 2 * i + 2;
    ComparatorFacts(cmp, s[largest], s[largest], s[largest]);
    if largest == r && afterLeft == l {
      ComparatorFacts(cmp, s[r], s[l], s[l]);
      ComparatorFacts(cmp, s[i], s[l], s[r]);
      ComparatorFacts(cmp, s[r], s[i], s[i]);
    } else if largest == r && l < n {
      ComparatorFacts(cmp, s[r], s[i], s[i]);
      ComparatorFacts(cmp, s[l], s[i], s[r]);
    }
  }

  /** A node whose value and children's values are untouched by a step
      keeps its heap property. */
  lemma UntouchedNode<T>(s0: seq<T>, s1: seq<T>, n: nat, k: nat, cmp: Cmp<T>)
    requires n <= |s0| == |s1| && k < n
    requires Dominates(s0, n, k, k, cmp)
    requires s1[k] == s0[k]
    requires 2 * k + 1 < n ==> s1[2 * k + 1] == s0[2 * k + 1]
    requires 2 * k + 2 < n ==> s1[2 * k + 2] == s0[2 * k + 2]
    ensures Dominates(s1, n, k, k, cmp)
  {
  }

  /** One sift-down step: after the root i of a subtree is exchanged with
      its larger child, the heap property is broken at most at that child,
      and the child's new parent dominates the child's children. */
  lemma SiftStep<T(!new)>(s0: seq<T>, s1: seq<T>, n: nat, lo: nat, i: nat, largest: nat, cmp: Cmp<T>)
    requires Comparator(cmp)
    requires lo <= i < n <= |s0|
    requires largest == 2 * i + 1 || largest == 2 * i + 2
    requires largest < n
    requires HeapExcept(s0, n, lo, i, cmp)
    requires lo < i ==> Dominates(s0, n, (i - 1) / 2, i, cmp)
    requires cmp(s0[largest], s0[i]) > 0
    requires Dominates(s0, n, largest, i, cmp)
    requires s1 == s0[i := s0[largest]][largest := s0[i]]
    ensures HeapExcept(s1, n, lo, largest, cmp)
    ensures Dominates(s1, n, i, largest, cmp)
  {
    forall k | lo <= k < n && k != largest
      ensures Dominates(s1, n, k, k, cmp)
    {
      if k == i {
        ComparatorFacts(cmp, s0[largest], s0[i], s0[i]);
      } else if 2 * k + 1 == i || 2 * k + 2 == i {
        assert k == (i - 1) / 2;
        assert Dominates(s0, n, k, k, cmp);
      } else {
        UntouchedNode(s0, s1, n, k, cmp);
      }
    }
    assert Dominates(s0, n, largest, largest, cmp);
  }

  /** heapify_items and heapify_pointers: sift the item at i down the heap
      of size n until its subtree is a max-heap again.  The ghost lo is the
      first node whose heap property the caller relies on. */
  method Heapify<T(!new)>(a: array<T>, n: nat, i: nat, ghost lo: nat, cmp: Cmp<T>)
    requires Comparator(cmp)
    requires lo <= i < n <= a.Length
    requires HeapExcept(a[..], n, lo, i, cmp)
    requires lo < i ==> Dominates(a[..], n, (i - 1) / 2, i, cmp)
    modifies a
    ensures HeapFrom(a[..], n, lo, cmp)
    ensures multiset(a[..n]) == multiset(old(a[..n]))
    ensures a[..i] == old(a[..i])
    ensures a[n..] == old(a[n..])
    decreases n - i
  {
    var largest := i;
    var left, right := 2 * i + 1, 2 * i + 2;
    if left < n && cmp(a[left], a[largest]) > 0 {
      largest := left;
    }
    ghost var afterLeft := largest;
    if right < n && cmp(a[right], a[largest]) > 0 {
      largest := right;
    }
    LargestOfThree(a[..], n, i, afterLeft, largest, cmp);
    if largest != i {
      ghost var s0 := a[..];
      SwapAt(a, i, largest);
      SwapFacts(s0, a[..], n, i, largest);
      SiftStep(s0, a[..], n, lo, i, largest, cmp);
      ghost var s1 := a[..];
      Heapify(a, n, largest, lo, cmp);
      PrefixOfPrefix(a[..], s1, i, largest);
    }
  }

  /** Sequences that agree on their first j items agree on their first i
      for any i up to j. */
  lemma PrefixOfPrefix<T>(s: seq<T>, t: seq<T>, i: nat, j: nat)
    requires i <= j <= |s| && j <= |t| && s[..j] == t[..j]
    ensures s[..i] == t[..i]
  {
    assert s[..i] == s[..j][..i];
    assert t[..i] == t[..j][..i];
  }

  /** Exchanging positions i < j inside the first n items rearranges
      s[..n] and leaves s[..i] and s[n..] as they were. */
  lemma SwapFacts<T>(s0: seq<T>, s1: seq<T>, n: nat, i: nat, j: nat)
    requires i < j < n <= |s0|
    requires s1 == s0[i := s0[j]][j := s0[i]]
    ensures multiset(s1[..n]) == multiset(s0[..n])
    ensures s1[..i] == s0[..i]
    ensures s1[n..] == s0[n..]
  {
    assert s1[..n] == s0[..n][i := s0[j]][j := s0[i]];
  }

  // ---------------------------------------------------------------------
  // The sort

  /** s[lo..hi] is in ascending order. */
  ghost predicate SortedRange<T>(s: seq<T>, lo: nat, hi: nat, cmp: Cmp<T>)
    requires hi <= |s|
  {
    forall p, q :: lo <= p < q < hi ==> cmp(s[p], s[q]) <= 0
  }

  /** Nothing in s[..i + 1] is above anything in s[i + 1..hi]. */
  ghost predicate Partitioned<T>(s: seq<T>, i: nat, hi: nat, cmp: Cmp<T>)
    requires hi <= |s|
  {
    forall p, q :: 0 <= p <= i < q < hi ==> cmp(s[p], s[q]) <= 0
  }

  /** The invariant of the extraction loop: a max-heap on s[..i + 1] whose
      items are all below the sorted tail s[i + 1..count]. */
  ghost predicate ExtractInv<T>(s: seq<T>, count: nat, i: nat, cmp: Cmp<T>)
    requires i < count <= |s|
  {
    HeapFrom(s, i + 1, 0, cmp) && SortedRange(s, i + 1, count, cmp) && Partitioned(s, i, count, cmp)
  }

  /** A bound on every item carries over to any rearrangement. */
  lemma BoundTransfer<T>(t: seq<T>, u: seq<T>, m: T, cmp: Cmp<T>)
    requires multiset(t) == multiset(u)
    requires forall j :: 0 <= j < |u| ==> cmp(u[j], m) <= 0
    ensures forall j :: 0 <= j < |t| ==> cmp(t[j], m) <= 0
  {
    forall j | 0 <= j < |t|
      ensures cmp(t[j], m) <= 0
    {
      assert t[j] in multiset(u);
      var k :| 0 <= k < |u| && u[k] == t[j];
    }
  }

  /** One round of the extraction loop keeps its invariant: the root moves
      to position i and the re-heapified prefix s2[..i] holds the rest. */
  lemma ExtractStep<T(!new)>(s0: seq<T>, s1: seq<T>, s2: seq<T>, count: nat, i: nat, cmp: Cmp<T>)
    requires Comparator(cmp)
    requires 0 < i < count <= |s0|
    requires ExtractInv(s0, count, i, cmp)
    requires s1 == s0[0 := s0[i]][i := s0[0]]
    requires |s2| == |s1| && HeapFrom(s2, i, 0, cmp)
    requires multiset(s2[..i]) == multiset(s1[..i]) && s2[i..] == s1[i..]
    ensures ExtractInv(s2, count, i - 1, cmp)
  {
    forall q | i <= q < count
      ensures forall j :: 0 <= j < i ==> cmp(s2[j], s2[q]) <= 0
    {
      assert s2[q] == s1[q];
      forall j | 0 <= j < i
        ensures cmp(s1[..i][j], s2[q]) <= 0
      {
        if q == i {
          if j == 0 {
            RootDominates(s0, i + 1, i, cmp);
          } else {
            RootDominates(s0, i + 1, j, cmp);
          }
        } else {
          assert s1[..i][j] == s0[if j == 0 then i else j];
        }
      }
      BoundTransfer(s2[..i], s1[..i], s2[q], cmp);
      assert forall j :: 0 <= j < i ==> s2[j] == s2[..i][j];
    }
    assert forall q :: i <= q < count ==> s2[q] == s1[q];
  }

  /** Nodes from n / 2 on have no children inside a heap of size n. */
  lemma LeavesAreHeaps<T>(s: seq<T>, n: nat, cmp: Cmp<T>)
    requires n <= |s|
    ensures HeapFrom(s, n, n / 2, cmp)
  {
    forall k | n / 2 <= k < n
      ensures Dominates(s, n, k, k, cmp)
    {
      assert 2 * k + 1 >= n;
    }
  }

  /** When the extraction loop ends the whole prefix is sorted. */
  lemma ExtractDone<T>(s: seq<T>, count: nat, cmp: Cmp<T>)
    requires 0 < count <= |s|
    requires ExtractInv(s, count, 0, cmp)
    ensures Sorted(s[..count], cmp)
  {
    forall p, q | 0 <= p < q < count
      ensures cmp(s[..count][p], s[..count][q]) <= 0
    {
      if p > 0 {
        assert SortedRange(s, 1, count, cmp);
      }
    }
  }

  /** Moving the root of the heap s0[..i + 1] to position i leaves a heap
      of size i that is broken at most at its root. */
  lemma RootOut<T>(s0: seq<T>, s1: seq<T>, count: nat, i: nat, cmp: Cmp<T>)
    requires 0 < i < count <= |s0|
    requires HeapFrom(s0, i + 1, 0, cmp)
    requires s1 == s0[0 := s0[i]][i := s0[0]]
    ensures HeapExcept(s1, i, 0, 0, cmp)
    ensures multiset(s1[..count]) == multiset(s0[..count])
    ensures s1[count..] == s0[count..]
  {
    assert s1[..count] == s0[..count][0 := s0[i]][i := s0[0]];
    forall k | 0 < k < i
      ensures Dominates(s1, i, k, k, cmp)
    {
      assert Dominates(s0, i + 1, k, k, cmp);
    }
  }

  /** Rearranging s1[..i] and keeping s1[i..] rearranges s1[..count]. */
  lemma PrefixRearranged<T>(s1: seq<T>, s2: seq<T>, count: nat, i: nat)
    requires i <= count <= |s1| == |s2|
    requires multiset(s2[..i]) == multiset(s1[..i]) && s2[i..] == s1[i..]
    ensures multiset(s2[..count]) == multiset(s1[..count])
    ensures s2[count..] == s1[count..]
  {
    assert s1[..count] == s1[..i] + s1[i..count];
    assert s2[..count] == s2[..i] + s2[i..count];
    assert s2[i..count] == s1[i..count];
    assert s2[count..] == s2[i..][count - i..];
  }

  /** The two loops of the heapsort: build a max-heap bottom-up, then
      repeatedly move its root behind the shrinking heap. */
  method HeapSort<T(!new)>(a: array<T>, count: nat, cmp: Cmp<T>)
    requires Comparator(cmp)
    requires count <= a.Length
    modifies a
    ensures Sorted(a[..count], cmp)
    ensures multiset(a[..count]) == multiset(old(a[..count]))
    ensures a[count..] == old(a[count..])
  {
    if count <= 1 {
      return;
    }
    var i: nat := count / 2;
    LeavesAreHeaps(a[..], count, cmp);
    while i > 0
      invariant i <= count / 2
      invariant HeapFrom(a[..], count, i, cmp)
      invariant multiset(a[..count]) == multiset(old(a[..count]))
      invariant a[count..] == old(a[count..])
    {
      i := i - 1;
      Heapify(a, count, i, i, cmp);
    }
    i := count - 1;
    while i > 0
      invariant i < count
      invariant ExtractInv(a[..], count, i, cmp)
      invariant multiset(a[..count]) == multiset(old(a[..count]))
      invariant a[count..] == old(a[count..])
    {
      ghost var s0 := a[..];
      SwapAt(a, 0, i);
      ghost var s1 := a[..];
      RootOut(s0, s1, count, i, cmp);
      Heapify(a, i, 0, 0, cmp);
      PrefixRearranged(s1, a[..], count, i);
      ExtractStep(s0, s1, a[..], count, i, cmp);
      i := i - 1;
    }
    ExtractDone(a[..], count, cmp);
  }

  /** mu_store_sort: sorts itemCount items in ascending order.  PARAM when
      the array or the comparator is NULL or the item size is zero; fewer
      than two items are left alone. */
  method Sort<T(!new)>(a: array?<T>, itemCount: nat, itemSize: nat, cmp: Option<Cmp<T>>) returns (err: Err)
    requires a != null ==> itemCount <= a.Length
    requires cmp.Some? ==> Comparator(cmp.value)
    modifies a
    ensures err == ErrParam <==> a == null || cmp.None? || itemSize == 0
    ensures err == ErrParam || err == ErrNone
    ensures err == ErrParam && a != null ==> a[..] == old(a[..])
    ensures err == ErrNone ==> a != null && Sorted(a[..itemCount], cmp.value)
    ensures err == ErrNone ==> multiset(a[..itemCount]) == multiset(old(a[..itemCount]))
    ensures err == ErrNone ==> a[itemCount..] == old(a[itemCount..])
    ensures err == ErrNone && itemCount <= 1 ==> a[..] == old(a[..])
  {
    if a == null || cmp.None? || itemSize == 0 {
      return ErrParam;
    }
    if itemCount <= 1 {
      return ErrNone;
    }
    HeapSort(a, itemCount, cmp.value);
    return ErrNone;
  }

  /** mu_store_psort: the same sort on an array of pointers.  PARAM when the
      array or the comparator is NULL; there is no item size to check. */
  method PSort<P(!new)>(a: array?<P>, itemCount: nat, cmp: Option<Cmp<P>>) returns (err: Err)
    requires a != null ==> itemCount <= a.Length
    requires cmp.Some? ==> Comparator(cmp.value)
    modifies a
    ensures err == ErrParam <==> a == null || cmp.None?
    ensures err == ErrParam || err == ErrNone
    ensures err == ErrParam && a != null ==> a[..] == old(a[..])
    ensures err == ErrNone ==> a != null && Sorted(a[..itemCount], cmp.value)
    ensures err == ErrNone ==> multiset(a[..itemCount]) == multiset(old(a[..itemCount]))
    ensures err == ErrNone ==> a[itemCount..] == old(a[itemCount..])
    ensures err == ErrNone && itemCount <= 1 ==> a[..] == old(a[..])
  {
    if a == null || cmp.None? {
      return ErrParam;
    }
    if itemCount <= 1 {
      return ErrNone;
    }
    HeapSort(a, itemCount, cmp.value);
    return ErrNone;
  }
}
