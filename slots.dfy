/** Sequence operations that describe what the containers do to their
    storage: opening a gap, closing one, and reversing a prefix. */
module Slots {

  /** The contents after x is placed at position i and the later items move
      up one slot (the memmove of an insertion). */
  function InsertAt<T>(s: seq<T>, i: nat, x: T): (r: seq<T>)
    requires i <= |s|
    ensures |r| == |s| + 1
    ensures r[i] == x
    ensures forall k :: 0 <= k < i ==> r[k] == s[k]
    ensures forall k :: i < k < |r| ==> r[k] == s[k - 1]
  {
    s[..i] + [x] + s[i..]
  }

  /** The contents after the item at position i is removed and the later
      items move down one slot (the memmove of a deletion). */
  function RemoveAt<T>(s: seq<T>, i: nat): (r: seq<T>)
    requires i < |s|
    ensures |r| == |s| - 1
    ensures forall k :: 0 <= k < i ==> r[k] == s[k]
    ensures forall k :: i <= k < |r| ==> r[k] == s[k + 1]
  {
    s[..i] + s[i + 1..]
  }

  /** Removing what was just inserted gives the original contents back. */
  lemma RemoveInserted<T>(s: seq<T>, i: nat, x: T)
    requires i <= |s|
    ensures RemoveAt(InsertAt(s, i, x), i) == s
  {
    var t := RemoveAt(InsertAt(s, i, x), i);
    assert forall k :: 0 <= k < |s| ==> t[k] == s[k];
  }

  /** Inserting the item that was just removed gives the original back. */
  lemma InsertRemoved<T>(s: seq<T>, i: nat)
    requires i < |s|
    ensures InsertAt(RemoveAt(s, i), i, s[i]) == s
  {
    var t := InsertAt(RemoveAt(s, i), i, s[i]);
    assert forall k :: 0 <= k < |s| ==> t[k] == s[k];
  }

  /** An insertion adds exactly one occurrence of x. */
  lemma InsertAtMultiset<T>(s: seq<T>, i: nat, x: T)
    requires i <= |s|
    ensures multiset(InsertAt(s, i, x)) == multiset(s) + multiset{x}
  {
    assert s == s[..i] + s[i..];
  }

  /** A deletion removes exactly one occurrence of the deleted item. */
  lemma RemoveAtMultiset<T>(s: seq<T>, i: nat)
    requires i < |s|
    ensures multiset(RemoveAt(s, i)) == multiset(s) - multiset{s[i]}
  {
    assert s == s[..i] + [s[i]] + s[i + 1..];
  }

  /** The contents after every item in s[lo..hi] is overwritten with x. */
  function Fill<T>(s: seq<T>, lo: nat, hi: nat, x: T): (r: seq<T>)
    requires lo <= hi <= |s|
    ensures |r| == |s|
    ensures forall k :: 0 <= k < |s| ==> r[k] == if lo <= k < hi then x else s[k]
  {
    s[..lo] + seq(hi - lo, _ => x) + s[hi..]
  }

  /** Overwriting one more item extends the overwritten range. */
  lemma FillStep<T>(s: seq<T>, lo: nat, hi: nat, x: T)
    requires lo <= hi < |s|
    ensures Fill(s, lo, hi, x)[hi := x] == Fill(s, lo, hi + 1, x)
  {
    var a, b := Fill(s, lo, hi, x)[hi := x], Fill(s, lo, hi + 1, x);
    assert forall k :: 0 <= k < |s| ==> a[k] == b[k];
  }

  /** s in the opposite order. */
  function Reversed<T>(s: seq<T>): (r: seq<T>)
    ensures |r| == |s|
    ensures forall k :: 0 <= k < |s| ==> r[k] == s[|s| - 1 - k]
  {
    if |s| == 0 then [] else Reversed(s[1..]) + [s[0]]
  }

  /** Reversing twice restores the sequence. */
  lemma ReversedTwice<T>(s: seq<T>)
    ensures Reversed(Reversed(s)) == s
  {
    var t := Reversed(Reversed(s));
    assert forall k :: 0 <= k < |s| ==> t[k] == s[k];
  }

  /** Reversal keeps every item: it is a permutation. */
  lemma {:induction false} ReversedMultiset<T>(s: seq<T>)
    ensures multiset(Reversed(s)) == multiset(s)
  {
    if |s| > 0 {
      ReversedMultiset(s[1..]);
      assert s == [s[0]] + s[1..];
    }
  }
}
