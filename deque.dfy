/** `struct clib_deque`: a circular buffer. `head` is the slot of the front element,
    `tail` the slot after the back element, and logical index `i` lives in physical
    slot `(head + i) mod no_max_elements`. A full buffer is reallocated at twice the
    size with its elements moved to the start. */
module ClibDeque {
  import opened ClibCommon

  /** `p mod cap` for `p < 2 * cap`, the only positions a cursor step produces. */
  function Wrap(p: nat, cap: nat): (r: nat)
    requires p < 2 * cap
    ensures r < cap
    ensures r == p % cap
  {
    if p < cap then p else
      ModOnce(p, cap);
      p - cap
  }

  /** Below twice the capacity, taking the remainder subtracts the capacity once. */
  lemma ModOnce(p: nat, cap: nat)
    requires cap <= p < 2 * cap
    ensures p % cap == p - cap
  {
    assert p == 1 * cap + (p - cap);
  }

  class Deque<T(0)> {
    var elements: array<T>
    var head: nat
    var tail: nat
    var noOfElements: nat
    ghost var Contents: seq<T>

    ghost predicate Valid()
      reads this, elements
    {
      && elements.Length > 0
      && head < elements.Length
      && noOfElements <= elements.Length
      && tail == Wrap(head + noOfElements, elements.Length)
      && |Contents| == noOfElements
      && forall i :: 0 <= i < noOfElements ==> Contents[i] == elements[Wrap(head + i, elements.Length)]
    }

    /** `c_deque_new`: an empty deque with `deqSize` slots (at least one). */
    constructor (deqSize: nat)
      ensures Valid() && fresh(elements) && Contents == []
      ensures elements.Length == if deqSize == 0 then 1 else deqSize
    {
      elements := new T[if deqSize == 0 then 1 else deqSize];
      head, tail, noOfElements := 0, 0, 0;
      Contents := [];
    }

    /** Copies the `n` elements starting at slot `h` of the ring `src`, in logical
        order, to the start of `dst`. */
    static method Linearize(src: array<T>, h: nat, n: nat, dst: array<T>)
      requires 0 < src.Length && h < src.Length && n <= src.Length && n <= dst.Length && src != dst
      modifies dst
      ensures forall i :: 0 <= i < n ==> dst[i] == src[Wrap(h + i, src.Length)]
    {
      var i := 0;
      while i < n
        invariant i <= n
        invariant forall j :: 0 <= j < i ==> dst[j] == src[Wrap(h + j, src.Length)]
      {
        dst[i] := src[Wrap(h + i, src.Length)];
        i := i + 1;
      }
    }

    /** Moves the elements into a buffer twice the size, front element first. */
    method Grow()
      requires Valid()
      modifies this
      ensures Valid() && fresh(elements) && elements.Length == 2 * old(elements.Length)
      ensures Contents == old(Contents) && head == 0
    {
      var a := new T[2 * elements.Length];
      Linearize(elements, head, noOfElements, a);
      elements := a;
      head := 0;
      tail := noOfElements;
    }

    /** `c_deque_push_back`: appends at the back. */
    method PushBack(x: T) returns (status: Status)
      requires Valid()
      modifies this, elements
      ensures Valid() && status == Success
      ensures Contents == old(Contents) + [x]
      ensures if old(noOfElements) < old(elements.Length) then elements == old(elements) else fresh(elements)
    {
      if noOfElements == elements.Length {
        Grow();
      }
      PushBackRoom(x);
      status := Success;
    }

    /** Appends into a buffer with a free slot: the element goes to `tail`, which
        steps on one slot. */
    method PushBackRoom(x: T)
      requires Valid() && noOfElements < elements.Length
      modifies this, elements
      ensures Valid() && elements == old(elements)
      ensures Contents == old(Contents) + [x]
      ensures head == old(head) && elements[old(tail)] == x
      ensures tail == Wrap(old(tail) + 1, elements.Length)
    {
      elements[tail] := x;
      tail := Wrap(tail + 1, elements.Length);
      noOfElements := noOfElements + 1;
      Contents := Contents + [x];
    }

    /** `c_deque_push_front`: prepends at the front. */
    method PushFront(x: T) returns (status: Status)
      requires Valid()
      modifies this, elements
      ensures Valid() && status == Success
      ensures Contents == [x] + old(Contents)
      ensures if old(noOfElements) < old(elements.Length) then elements == old(elements) else fresh(elements)
    {
      if noOfElements == elements.Length {
        Grow();
      }
      PushFrontRoom(x);
      status := Success;
    }

    /** Prepends into a buffer with a free slot: `head` steps back one slot. */
    method PushFrontRoom(x: T)
      requires Valid() && noOfElements < elements.Length
      modifies this, elements
      ensures Valid() && elements == old(elements)
      ensures Contents == [x] + old(Contents)
      ensures head == Wrap(old(head) + elements.Length - 1, elements.Length) && elements[head] == x
      ensures tail == old(tail)
    {
      ghost var h0 := head;
      ghost var c0 := Contents;
      head := Wrap(head + elements.Length - 1, elements.Length);
      elements[head] := x;
      noOfElements := noOfElements + 1;
      Contents := [x] + Contents;
      forall i | 0 < i < noOfElements
        ensures Contents[i] == elements[Wrap(head + i, elements.Length)]
      {
        assert Wrap(head + i, elements.Length) == Wrap(h0 + (i - 1), elements.Length) != head;
        assert Contents[i] == c0[i - 1];
      }
    }

    /** `c_deque_front`: the front element, or an index error when empty. */
    method Front() returns (r: Result<T>)
      requires Valid()
      ensures Contents != [] ==> r == Ok(Contents[0])
      ensures Contents == [] ==> r == Err(DequeIndexOutOfBound)
    {
      r := ElementAt(0);
    }

    /** `c_deque_back`: the back element, or an index error when empty. */
    method Back() returns (r: Result<T>)
      requires Valid()
      ensures Contents != [] ==> r == Ok(Contents[|Contents| - 1])
      ensures Contents == [] ==> r == Err(DequeIndexOutOfBound)
    {
      r := ElementAt(noOfElements - 1);
    }

    /** `c_deque_pop_back`: drops the back element; an empty deque is an error. */
    method PopBack() returns (status: Status)
      requires Valid()
      modifies this
      ensures Valid() && elements == old(elements)
      ensures status == if old(Contents) == [] then DequeNotInitialized else Success
      ensures Contents == if old(Contents) == [] then old(Contents) else old(Contents)[..|old(Contents)| - 1]
    {
      if noOfElements == 0 {
        return DequeNotInitialized;
      }
      tail := Wrap(tail + elements.Length - 1, elements.Length);
      noOfElements := noOfElements - 1;
      Contents := Contents[..noOfElements];
      status := Success;
    }

    /** `c_deque_pop_front`: drops the front element; an empty deque is an error. */
    method PopFront() returns (status: Status)
      requires Valid()
      modifies this
      ensures Valid() && elements == old(elements)
      ensures status == if old(Contents) == [] then DequeNotInitialized else Success
      ensures Contents == if old(Contents) == [] then old(Contents) else old(Contents)[1..]
    {
      if noOfElements == 0 {
        return DequeNotInitialized;
      }
      head := Wrap(head + 1, elements.Length);
      noOfElements := noOfElements - 1;
      Contents := Contents[1..];
      status := Success;
    }

    /** `c_deque_empty`. */
    method Empty() returns (b: bool)
      requires Valid()
      ensures b <==> Contents == []
    {
      b := noOfElements == 0;
    }

    /** `c_deque_size`. */
    method Size() returns (n: int)
      requires Valid()
      ensures n == |Contents|
    {
      n := noOfElements;
    }

    /** `c_deque_element_at`: the element at logical `index`, read from physical slot
        `(head + index) mod capacity`; an index outside `[0, size)` is an error. */
    method ElementAt(index: int) returns (r: Result<T>)
      requires Valid()
      ensures 0 <= index < |Contents| ==> r == Ok(Contents[index])
      ensures 0 <= index < |Contents| ==> r == Ok(elements[(head + index) % elements.Length])
      ensures !(0 <= index < |Contents|) ==> r == Err(DequeIndexOutOfBound)
    {
      if index < 0 || index >= noOfElements {
        return Err(DequeIndexOutOfBound);
      }
      r := Ok(elements[Wrap(head + index, elements.Length)]);
    }

    /** The iterator's `replace_value` at logical `index`. */
    method ReplaceValueAt(index: int, x: T) returns (status: Status)
      requires Valid()
      modifies this, elements
      ensures Valid() && elements == old(elements)
      ensures status == if 0 <= index < |old(Contents)| then Success else DequeIndexOutOfBound
      ensures Contents == if status == Success then old(Contents)[index := x] else old(Contents)
    {
      if index < 0 || index >= noOfElements {
        return DequeIndexOutOfBound;
      }
      elements[Wrap(head + index, elements.Length)] := x;
      Contents := Contents[index := x];
      status := Success;
    }

    /** `c_deque_delete`: every element is released; the deque is left empty. */
    method Delete() returns (status: Status)
      requires Valid()
      modifies this
      ensures Valid() && Contents == [] && status == Success && elements == old(elements)
    {
      noOfElements := 0;
      tail := head;
      Contents := [];
      status := Success;
    }

    /** What an iterator over the deque yields: front to back. */
    method Elements() returns (s: seq<T>)
      requires Valid()
      ensures s == Contents
    {
      s := [];
      var i := 0;
      while i < noOfElements
        invariant i <= noOfElements
        invariant s == Contents[..i]
      {
        s := s + [elements[Wrap(head + i, elements.Length)]];
        i := i + 1;
      }
    }
  }
}
