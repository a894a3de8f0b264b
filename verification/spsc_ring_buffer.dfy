/**
  Single-producer/single-consumer fixed-size ring buffer (spsc_ring_buffer.h).

  A buffer of capacity `c` owns `c + 1` slots; `head` is the next slot to read and
  `tail` the next slot to write. One slot always stays free, so "full" is
  `Next(tail) == head` and "empty" is `head == tail`. The atomics and their memory
  orders are not modelled: one thread calls Publish and Consume on plain fields.
*/
module SpscRingBuffers {

  /** The number of occupied slots from `head` up to (not including) `tail`, wrapping around. */
  function Occupied(head: nat, tail: nat, slots: nat): (r: nat)
    requires head < slots && tail < slots
    ensures r < slots
    ensures r == 0 <==> head == tail
    ensures (head + r == tail) || (head + r == tail + slots)
  {
    if head <= tail then tail - head else slots - head + tail
  }

  /** The slots from `head` up to (not including) `tail`, wrapping around: the stored elements, oldest first. */
  function Window<T>(slots: seq<T>, head: nat, tail: nat): (r: seq<T>)
    requires head < |slots| && tail < |slots|
    ensures |r| == Occupied(head, tail, |slots|)
  {
    if head <= tail then slots[head..tail] else slots[head..] + slots[..tail]
  }

  /**
    Writing `x` into slot `tail` of a window that leaves a slot free and moving `tail`
    one slot on appends `x` at the back.
  */
  lemma WindowPush<T>(slots: seq<T>, head: nat, tail: nat, x: T)
    requires head < |slots| && tail < |slots| && Occupied(head, tail, |slots|) < |slots| - 1
    ensures Window(slots[tail := x], head, if tail + 1 == |slots| then 0 else tail + 1)
         == Window(slots, head, tail) + [x]
  {
    var after := slots[tail := x];
    var next := if tail + 1 == |slots| then 0 else tail + 1;
    if head <= tail {
      if next == 0 {
        assert head > 0;
        assert after[..0] == [];
        assert after[head..] == slots[head..tail] + [x];
      } else {
        assert after[head..next] == slots[head..tail] + [x];
      }
    } else {
      assert after[head..] == slots[head..];
      assert after[..next] == slots[..tail] + [x];
    }
  }

  /** Moving `head` one slot on drops the front element of a non-empty window, which is the one in slot `head`. */
  lemma WindowPop<T>(slots: seq<T>, head: nat, tail: nat)
    requires head < |slots| && tail < |slots| && head != tail
    ensures Window(slots, head, tail)[0] == slots[head]
    ensures Window(slots, if head + 1 == |slots| then 0 else head + 1, tail) == Window(slots, head, tail)[1..]
  {
    if head > tail && head + 1 == |slots| {
      assert Window(slots, head, tail) == [slots[head]] + slots[..tail];
    }
  }

  class SPSCRingBuffer<T(0)> {
    /** `buffer_`: `capacity + 1` slots, never reallocated. */
    const buffer: array<T>
    /** `head_`: the slot the consumer reads next. */
    var head: nat
    /** `tail_`: the slot the producer writes next. */
    var tail: nat
    /** Every element published so far, and every element consumed so far. */
    ghost var published: seq<T>
    ghost var consumed: seq<T>

    /** The elements in the buffer, oldest first. */
    ghost function Contents(): seq<T>
      reads this, buffer
      requires head < buffer.Length && tail < buffer.Length
    {
      Window(buffer[..], head, tail)
    }

    /**
      The buffer's invariant: both indices are slots, and what was consumed followed by
      what is still stored is exactly what was published (first in, first out).
    */
    ghost predicate Valid()
      reads this, buffer
    {
      && buffer.Length >= 1
      && head < buffer.Length && tail < buffer.Length
      && published == consumed + Contents()
    }

    /** The number of elements the buffer can hold. */
    function Capacity(): nat
      requires buffer.Length >= 1
    {
      buffer.Length - 1
    }

    /** `Next`: the slot after `slot`, wrapping from the last slot to the first. */
    function Next(slot: nat): (r: nat)
      requires slot < buffer.Length
      ensures r < buffer.Length
      ensures r == if slot + 1 == buffer.Length then 0 else slot + 1
    {
      (slot + 1) % buffer.Length
    }

    /** `Full`: the indices enclose `Capacity()` elements. */
    function Full(head: nat, tail: nat): (r: bool)
      requires head < buffer.Length && tail < buffer.Length
      ensures r <==> Occupied(head, tail, buffer.Length) == Capacity()
    {
      Next(tail) == head
    }

    /** `Empty`: the indices enclose no element. */
    function Empty(head: nat, tail: nat): (r: bool)
      requires head < buffer.Length && tail < buffer.Length
      ensures r <==> Occupied(head, tail, buffer.Length) == 0
    {
      tail == head
    }

    /** The stored elements never exceed the capacity. */
    lemma WithinCapacity()
      requires Valid()
      ensures |Contents()| <= Capacity()
    {
    }

    constructor (capacity: nat)
      ensures Valid() && fresh(buffer)
      ensures Capacity() == capacity && Contents() == []
      ensures published == [] && consumed == []
    {
      buffer := new T[capacity + 1];
      head, tail := 0, 0;
      published, consumed := [], [];
    }

    /**
      `Publish`: on a full buffer, reports false and changes nothing; otherwise writes
      `element` into slot `tail`, advances `tail` and reports true.
    */
    method Publish(element: T) returns (ok: bool)
      requires Valid()
      modifies this, buffer
      ensures Valid()
      ensures ok <==> |old(Contents())| < Capacity()
      ensures ok ==> Contents() == old(Contents()) + [element] && published == old(published) + [element]
      ensures ok ==> buffer[..] == old(buffer[..])[old(tail) := element] && tail == Next(old(tail))
      ensures !ok ==> buffer[..] == old(buffer[..]) && tail == old(tail) && published == old(published)
      ensures head == old(head) && consumed == old(consumed)
    {
      var currHead := head;
      var currTail := tail;
      if Full(currHead, currTail) {
        return false;
      }
      WindowPush(buffer[..], currHead, currTail, element);
      buffer[currTail] := element;
      tail := Next(currTail);
      published := published + [element];
      ok := true;
    }

    /**
      `Consume`: on an empty buffer, reports false and leaves `element` as it was;
      otherwise hands back the element in slot `head`, advances `head` and reports true.
      The by-reference argument `element` is modelled as an input and a returned new value.
    */
    method Consume(element: T) returns (ok: bool, element': T)
      requires Valid()
      modifies this
      ensures Valid()
      ensures ok <==> old(Contents()) != []
      ensures ok ==> element' == old(Contents())[0] == buffer[old(head)] && head == Next(old(head))
      ensures ok ==> Contents() == old(Contents())[1..] && consumed == old(consumed) + [element']
      ensures !ok ==> element' == element && head == old(head) && consumed == old(consumed)
      ensures tail == old(tail) && published == old(published)
    {
      var currHead := head;
      var currTail := tail;
      if Empty(currHead, currTail) {
        return false, element;
      }
      WindowPop(buffer[..], currHead, currTail);
      element' := buffer[currHead];
      head := Next(currHead);
      consumed := consumed + [element'];
      ok := true;
    }
  }
}
