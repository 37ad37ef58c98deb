/** `struct clib_array`: a slot array `pElements` of capacity `no_max_elements`
    whose first `no_of_elements` slots hold the elements. */
module ClibArray {
  import opened ClibCommon

  class DynamicArray<T(0)> {
    var elements: array<T>
    var noOfElements: nat

    /** Size never exceeds capacity. */
    ghost predicate Valid()
      reads this
    {
      noOfElements <= elements.Length
    }

    /** The elements, in index order. */
    ghost function Contents(): seq<T>
      reads this, elements
      requires Valid()
    {
      elements[..noOfElements]
    }

    /** `c_array_new`: an empty array with room for `initSize` elements. */
    constructor (initSize: nat)
      ensures Valid() && fresh(elements) && elements.Length == initSize && Contents() == []
    {
      elements := new T[initSize];
      noOfElements := 0;
    }

    /** Reallocates the slot array with `newCap` slots, keeping the elements. */
    method Grow(newCap: nat)
      requires Valid() && elements.Length <= newCap
      modifies this
      ensures Valid() && fresh(elements) && elements.Length == newCap
      ensures noOfElements == old(noOfElements) && Contents() == old(Contents())
    {
      var a := new T[newCap];
      CopyPrefix(elements, a, noOfElements);
      elements := a;
    }

    /** Copies the first `n` slots of `src` into `dst`. */
    static method CopyPrefix(src: array<T>, dst: array<T>, n: nat)
      requires n <= src.Length && n <= dst.Length && src != dst
      modifies dst
      ensures dst[..n] == src[..n]
    {
      var i := 0;
      while i < n
        invariant i <= n
        invariant forall j :: 0 <= j < i ==> dst[j] == src[j]
      {
        dst[i] := src[i];
        i := i + 1;
      }
    }

    /** Moves slots `[lo, hi)` one place up, into `[lo + 1, hi + 1)`. */
    static method ShiftUp(a: array<T>, lo: nat, hi: nat)
      requires lo <= hi < a.Length
      modifies a
      ensures forall m :: 0 <= m <= lo ==> a[m] == old(a[m])
      ensures forall m :: lo < m <= hi ==> a[m] == old(a[m - 1])
      ensures forall m :: hi < m < a.Length ==> a[m] == old(a[m])
    {
      var j := hi;
      while j > lo
        invariant lo <= j <= hi
        invariant forall m :: 0 <= m <= j ==> a[m] == old(a[m])
        invariant forall m :: j < m <= hi ==> a[m] == old(a[m - 1])
        invariant forall m :: hi < m < a.Length ==> a[m] == old(a[m])
      {
        a[j] := a[j - 1];
        j := j - 1;
      }
    }

    /** Moves slots `[lo + 1, hi)` one place down, into `[lo, hi - 1)`. */
    static method ShiftDown(a: array<T>, lo: nat, hi: nat)
      requires lo < hi <= a.Length
      modifies a
      ensures forall m :: 0 <= m < lo ==> a[m] == old(a[m])
      ensures forall m :: lo <= m < hi - 1 ==> a[m] == old(a[m + 1])
      ensures forall m :: hi - 1 <= m < a.Length ==> a[m] == old(a[m])
    {
      var j := lo;
      while j < hi - 1
        invariant lo <= j <= hi - 1
        invariant forall m :: 0 <= m < lo ==> a[m] == old(a[m])
        invariant forall m :: lo <= m < j ==> a[m] == old(a[m + 1])
        invariant forall m :: j <= m < a.Length ==> a[m] == old(a[m])
      {
        a[j] := a[j + 1];
        j := j + 1;
      }
    }

    /** A sequence that agrees with `before` below `index`, holds `x` at `index` and
        `before` shifted up above it, is `before` with `x` inserted. */
    static lemma InsertedAt(before: seq<T>, after: seq<T>, index: nat, x: T)
      requires index <= |before| && |after| == |before| + 1
      requires forall m :: 0 <= m < index ==> after[m] == before[m]
      requires after[index] == x
      requires forall m :: index < m < |after| ==> after[m] == before[m - 1]
      ensures after == before[..index] + [x] + before[index..]
    {
    }

    /** A sequence that agrees with `before` below `pos` and with `before` shifted down
        from `pos` on is `before` without its `pos`-th element. */
    static lemma RemovedAt(before: seq<T>, after: seq<T>, pos: nat)
      requires pos < |before| && |after| == |before| - 1
      requires forall m :: 0 <= m < pos ==> after[m] == before[m]
      requires forall m :: pos <= m < |after| ==> after[m] == before[m + 1]
      ensures after == before[..pos] + before[pos + 1..]
    {
    }

    /** The capacity after growing a full array: double, or one slot for none. */
    static function GrownCapacity(cap: nat): (r: nat)
      ensures r > cap
    {
      if cap == 0 then 1 else 2 * cap
    }

    /** `c_array_push_back`: appends one element, growing the storage when full. */
    method PushBack(x: T) returns (status: Status)
      requires Valid()
      modifies this, elements
      ensures Valid() && status == Success
      ensures Contents() == old(Contents()) + [x]
      ensures elements.Length == if old(noOfElements) < old(elements.Length) then old(elements.Length)
                                 else GrownCapacity(old(elements.Length))
      ensures if old(noOfElements) < old(elements.Length) then elements == old(elements) else fresh(elements)
    {
      if noOfElements == elements.Length {
        Grow(GrownCapacity(elements.Length));
      }
      elements[noOfElements] := x;
      noOfElements := noOfElements + 1;
      status := Success;
    }

    /** `c_array_element_at`: the element at `pos`, or an index error outside
        `[0, size)`. */
    method ElementAt(pos: int) returns (r: Result<T>)
      requires Valid()
      ensures 0 <= pos < |Contents()| ==> r == Ok(Contents()[pos])
      ensures !(0 <= pos < |Contents()|) ==> r == Err(ArrayIndexOutOfBound)
    {
      if pos < 0 || pos >= noOfElements {
        return Err(ArrayIndexOutOfBound);
      }
      r := Ok(elements[pos]);
    }

    /** `c_array_insert_at`: puts `x` before the element at `index` (at the end when
        `index` is the size), shifting the rest one slot up; an index outside
        `[0, size]` is an error and changes nothing. */
    method InsertAt(index: int, x: T) returns (status: Status)
      requires Valid()
      modifies this, elements
      ensures Valid()
      ensures status == if 0 <= index <= old(noOfElements) then Success else ArrayIndexOutOfBound
      ensures status == Success ==> Contents() == old(Contents())[..index] + [x] + old(Contents())[index..]
      ensures status != Success ==> Contents() == old(Contents()) && elements == old(elements)
      ensures status == Success ==>
                if old(noOfElements) < old(elements.Length) then elements == old(elements) else fresh(elements)
    {
      if index < 0 || index > noOfElements {
        return ArrayIndexOutOfBound;
      }
      if noOfElements == elements.Length {
        Grow(GrownCapacity(elements.Length));
      }
      ghost var before := elements[..noOfElements];
      ShiftUp(elements, index, noOfElements);
      elements[index] := x;
      noOfElements := noOfElements + 1;
      InsertedAt(before, elements[..noOfElements], index, x);
      status := Success;
    }

    /** `c_array_size`. */
    method Size() returns (n: int)
      requires Valid()
      ensures n == |Contents()|
    {
      n := noOfElements;
    }

    /** `c_array_capacity`: how many elements fit without reallocation. */
    method Capacity() returns (n: int)
      requires Valid()
      ensures n == elements.Length && n >= |Contents()|
    {
      n := elements.Length;
    }

    /** `c_array_empty`. */
    method Empty() returns (b: bool)
      requires Valid()
      ensures b <==> Contents() == []
    {
      b := noOfElements == 0;
    }

    /** `c_array_reserve`: makes room for `n` elements without changing any. */
    method Reserve(n: int) returns (status: Status)
      requires Valid()
      modifies this
      ensures Valid() && status == Success
      ensures Contents() == old(Contents())
      ensures elements.Length == if n > old(elements.Length) then n else old(elements.Length)
      ensures if n > old(elements.Length) then fresh(elements) else elements == old(elements)
    {
      if n > elements.Length {
        Grow(n);
      }
      status := Success;
    }

    /** `c_array_front`: the first element, or an index error when empty. */
    method Front() returns (r: Result<T>)
      requires Valid()
      ensures Contents() != [] ==> r == Ok(Contents()[0])
      ensures Contents() == [] ==> r == Err(ArrayIndexOutOfBound)
    {
      r := ElementAt(0);
    }

    /** `c_array_back`: the last element, or an index error when empty. */
    method Back() returns (r: Result<T>)
      requires Valid()
      ensures Contents() != [] ==> r == Ok(Contents()[|Contents()| - 1])
      ensures Contents() == [] ==> r == Err(ArrayIndexOutOfBound)
    {
      r := ElementAt(noOfElements - 1);
    }

    /** `c_array_remove_from`: deletes the element at `pos`, shifting the rest one
        slot down; a position outside `[0, size)` is an error and changes nothing. */
    method RemoveFrom(pos: int) returns (status: Status)
      requires Valid()
      modifies this, elements
      ensures Valid() && elements == old(elements)
      ensures status == if 0 <= pos < old(noOfElements) then Success else ArrayIndexOutOfBound
      ensures status == Success ==> Contents() == old(Contents())[..pos] + old(Contents())[pos + 1..]
      ensures status != Success ==> Contents() == old(Contents())
    {
      if pos < 0 || pos >= noOfElements {
        return ArrayIndexOutOfBound;
      }
      ghost var before := elements[..noOfElements];
      ShiftDown(elements, pos, noOfElements);
      noOfElements := noOfElements - 1;
      RemovedAt(before, elements[..noOfElements], pos);
      status := Success;
    }

    /** The iterator's `replace_value` at position `pos`: overwrites that element;
        a position outside `[0, size)` is an error and changes nothing. */
    method ReplaceValueAt(pos: int, x: T) returns (status: Status)
      requires Valid()
      modifies elements
      ensures Valid()
      ensures status == if 0 <= pos < noOfElements then Success else ArrayIndexOutOfBound
      ensures status == Success ==> Contents() == old(Contents())[pos := x]
      ensures status != Success ==> Contents() == old(Contents())
    {
      if pos < 0 || pos >= noOfElements {
        return ArrayIndexOutOfBound;
      }
      elements[pos] := x;
      status := Success;
    }

    /** `c_array_delete`: every element is released; the array is left empty. */
    method Delete() returns (status: Status)
      requires Valid()
      modifies this
      ensures Valid() && Contents() == [] && status == Success && elements == old(elements)
    {
      noOfElements := 0;
      status := Success;
    }

    /** What an iterator over the array yields: the elements in index order. */
    method Elements() returns (s: seq<T>)
      requires Valid()
      ensures s == Contents()
    {
      s := [];
      var i := 0;
      while i < noOfElements
        invariant i <= noOfElements
        invariant s == elements[..i]
      {
        s := s + [elements[i]];
        i := i + 1;
      }
    }
  }
}
