/** Circular windows over a fixed buffer: n slots read from a start index
    onwards, wrapping from the last slot back to slot 0.  The FIFO queues and
    the ring buffer keep their items in such a window. */
module Ring {

  /** An index below twice the ring size brought back into the ring: one
      subtraction of the size at most. */
  function Wrap(i: nat, size: nat): (r: nat)
    requires 0 < size && i < 2 * size
    ensures r < size
  {
    if i < size then i else i - size
  }

  /** Wrapping is reduction modulo the size, which is how the code writes
      it. */
  lemma WrapIsMod(i: nat, size: nat)
    requires 0 < size && i < 2 * size
    ensures Wrap(i, size) == i % size
  {
    if i >= size {
      assert i == size * 1 + (i - size);
    }
  }

  /** The slot after i in a ring of the given size, computed as the code
      does, (i + 1) % size. */
  method Next(i: nat, size: nat) returns (r: nat)
    requires i < size
    ensures r == Wrap(i + 1, size) && r == (i + 1) % size
  {
    WrapIsMod(i + 1, size);
    r := (i + 1) % size;
  }

  /** The n items of buf starting at slot start, in the order they were put. */
  function Window<T>(buf: seq<T>, start: nat, n: nat): (r: seq<T>)
    requires start < |buf| && n <= |buf|
    ensures |r| == n
  {
    if n == 0 then [] else Window(buf, start, n - 1) + [buf[Wrap(start + n - 1, |buf|)]]
  }

  /** Item k of a window is the slot k places after start, wrapping round. */
  lemma {:induction false} WindowAt<T>(buf: seq<T>, start: nat, n: nat)
    requires start < |buf| && n <= |buf|
    ensures forall k :: 0 <= k < n ==> Window(buf, start, n)[k] == buf[Wrap(start + k, |buf|)]
  {
    if n > 0 {
      WindowAt(buf, start, n - 1);
    }
  }

  /** Writing the slot just past a window that is not yet full, and growing
      the window by one, appends the written item: the slot written is not
      one of the window's own. */
  lemma WindowPut<T>(buf: seq<T>, start: nat, n: nat, x: T)
    requires start < |buf| && n < |buf|
    ensures Window(buf[Wrap(start + n, |buf|) := x], start, n + 1) == Window(buf, start, n) + [x]
  {
    var b := buf[Wrap(start + n, |buf|) := x];
    var lhs, rhs := Window(b, start, n + 1), Window(buf, start, n) + [x];
    WindowAt(b, start, n + 1);
    WindowAt(buf, start, n);
    assert forall k :: 0 <= k <= n ==> lhs[k] == rhs[k];
  }

  /** Moving the start one slot on, with wrap-around, drops the oldest item
      and keeps the others in order. */
  lemma WindowGet<T>(buf: seq<T>, start: nat, n: nat)
    requires start < |buf| && 0 < n <= |buf|
    ensures Window(buf, start, n)[0] == buf[start]
    ensures Window(buf, Wrap(start + 1, |buf|), n - 1) == Window(buf, start, n)[1..]
  {
    var lhs, rhs := Window(buf, Wrap(start + 1, |buf|), n - 1), Window(buf, start, n)[1..];
    WindowAt(buf, Wrap(start + 1, |buf|), n - 1);
    WindowAt(buf, start, n);
    assert forall k :: 0 <= k < n - 1 ==> lhs[k] == rhs[k];
  }

  /** In a ring of the given size, the slot after the last item is head
      and count wrapped; it coincides with head exactly when the ring is
      empty or full. */
  lemma TailMeetsHead(head: nat, count: nat, size: nat)
    requires head < size && count <= size
    ensures Wrap(head + count, size) == head <==> count == 0 || count == size
  {
  }
}
