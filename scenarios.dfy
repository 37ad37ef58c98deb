/** Client code driving the containers through several calls in a row, with more
    than one container alive at once: the frame clauses of each mutator tell the
    caller what the next call may touch and that the other containers keep their
    contents. */
module ClibScenarios {
  import opened ClibCommon
  import opened Ordering
  import ClibArray
  import ClibDeque
  import ClibSlist
  import ClibMap

  /** An integer comparator in the usual C style: the difference of its arguments. */
  function IntCompare(a: int, b: int): (r: int)
    ensures r == 0 <==> a == b
    ensures r < 0 <==> a < b
  {
    a - b
  }

  lemma IntCompareValid()
    ensures ValidComparator(IntCompare)
  {
  }

  /** `push_back(1)`, `push_back(2)`, `push_back(3)`, then `remove_from(1)` leaves
      `1, 3`; the array has room for one element, so it grows twice on the way. */
  method ArrayPushRemove() returns (s: seq<int>, size: int, second: Result<int>)
    ensures s == [1, 3] && size == 2 && second == Ok(3)
  {
    var a := new ClibArray.DynamicArray<int>(1);
    var st := a.PushBack(1);
    st := a.PushBack(2);
    st := a.PushBack(3);
    st := a.RemoveFrom(1);
    s := a.Elements();
    size := a.Size();
    second := a.ElementAt(1);
  }

  /** Two arrays side by side: growing and shifting one leaves the other alone. */
  method TwoArrays() returns (s1: seq<int>, s2: seq<int>)
    ensures s1 == [1, 2, 3] && s2 == [7]
  {
    var a1 := new ClibArray.DynamicArray<int>(1);
    var a2 := new ClibArray.DynamicArray<int>(0);
    var st := a1.PushBack(2);
    st := a2.InsertAt(0, 7);
    assert a1.Contents() == [2] && a2.Contents() == [7];
    st := a1.InsertAt(0, 1);
    st := a1.PushBack(3);
    assert a1.Contents() == [1, 2, 3];
    st := a2.InsertAt(5, 8);
    st := a1.Reserve(10);
    s1 := a1.Elements();
    s2 := a2.Elements();
  }

  /** `push_back(1)`, `push_back(2)`, `push_front(0)` on a deque of two slots: the
      third push grows the ring, and the elements read back as `0, 1, 2`. */
  method DequePushes() returns (e0: Result<int>, e1: Result<int>, e2: Result<int>)
    ensures e0 == Ok(0) && e1 == Ok(1) && e2 == Ok(2)
  {
    var d := new ClibDeque.Deque<int>(2);
    var st := d.PushBack(1);
    st := d.PushBack(2);
    st := d.PushFront(0);
    e0 := d.ElementAt(0);
    e1 := d.ElementAt(1);
    e2 := d.ElementAt(2);
  }

  /** Pushing at the back and popping at the front yields the elements in the
      order they went in. */
  method DequeFifo() returns (fifo: seq<int>)
    ensures fifo == [1, 2, 3]
  {
    var q := new ClibDeque.Deque<int>(1);
    var st := q.PushBack(1);
    st := q.PushBack(2);
    st := q.PushBack(3);
    fifo := [];
    while q.noOfElements > 0
      invariant q.Valid() && fifo + q.Contents == [1, 2, 3]
      decreases q.noOfElements
    {
      var f := q.Front();
      fifo := fifo + [f.value];
      st := q.PopFront();
    }
  }

  /** Pushing and popping at the front behaves as a stack. */
  method DequeStack() returns (stack: seq<int>)
    ensures stack == [3, 2, 1]
  {
    var d := new ClibDeque.Deque<int>(1);
    var st := d.PushFront(1);
    st := d.PushFront(2);
    st := d.PushFront(3);
    stack := [];
    while d.noOfElements > 0
      invariant d.Valid() && stack + d.Contents == [3, 2, 1]
      decreases d.noOfElements
    {
      var t := d.Front();
      stack := stack + [t.value];
      st := d.PopFront();
    }
  }

  /** Two appends and an insertion at position 1 put the new element between
      them. */
  method ListInsert() returns (s: seq<int>)
    ensures s == [1, 2, 3]
  {
    var l := new ClibSlist.Slist<int>(IntCompare);
    var st := l.PushBack(1);
    st := l.PushBack(3);
    assert l.Contents == [1, 3];
    st := l.Insert(1, 2);
    s := l.Elements();
  }

  /** After `remove(pos)`, `find` for the value that was there reports not-found,
      while the other elements stay. */
  method ListRemoveFind() returns (s: seq<int>, found: Option<int>)
    ensures s == [1] && found == None
  {
    var l := new ClibSlist.Slist<int>(IntCompare);
    var st := l.PushBack(1);
    st := l.PushBack(2);
    assert l.Contents == [1, 2];
    l.Remove(1);
    found := l.Find(2);
    s := l.Elements();
  }

  /** Two lists side by side: changing one leaves the other's nodes and elements
      alone. */
  method TwoLists() returns (s1: seq<int>, s2: seq<int>)
    ensures s1 == [1, 2] && s2 == [9]
  {
    var l1 := new ClibSlist.Slist<int>(IntCompare);
    var l2 := new ClibSlist.Slist<int>(IntCompare);
    var st := l1.PushBack(2);
    st := l2.PushBack(9);
    st := l1.Insert(0, 1);
    s1 := l1.Elements();
    s2 := l2.Elements();
  }

  /** `insert(k, 1)` then `insert(k, 2)`: the second is a duplicate and `find`
      still returns 1; after `remove(k)` the key is gone. The key is the code of
      the character `a`. */
  method MapDuplicate() returns (second: Status, v: Option<int>, gone: Option<int>)
    ensures second == RbtreeKeyDuplicate && v == Some(1) && gone == None
  {
    IntCompareValid();
    var m := new ClibMap.Map<int, int>(IntCompare);
    var st := m.Insert(0x61, 1);
    second := m.Insert(0x61, 2);
    v := m.Find(0x61);
    st := m.Remove(0x61);
    gone := m.Find(0x61);
  }
}
