/** `struct clib_slist`: a singly linked list of nodes from `head`, with its length
    kept in `size`. Positions count from 0 at the head. */
module ClibSlist {
  import opened ClibCommon

  /** `struct clib_slist_node`: one element and the link to the next node. */
  class Node<T> {
    var elem: T
    var next: Node?<T>

    constructor (e: T, n: Node?<T>)
      ensures elem == e && next == n
    {
      elem := e;
      next := n;
    }
  }

  /** The position of the first element of `s` that `cmp` reports equal to `v`. */
  function IndexOf<T>(cmp: (T, T) -> int, s: seq<T>, v: T): (r: Option<nat>)
    ensures r.Some? ==> r.value < |s| && cmp(s[r.value], v) == 0
    ensures r.Some? ==> forall j :: 0 <= j < r.value ==> cmp(s[j], v) != 0
    ensures r.None? <==> forall j :: 0 <= j < |s| ==> cmp(s[j], v) != 0
  {
    if s == [] then None
    else if cmp(s[0], v) == 0 then Some(0)
    else match IndexOf(cmp, s[1..], v)
      case None => None
      case Some(i) => Some(i + 1)
  }

  class Slist<T> {
    var head: Node?<T>
    var size: nat
    const compareFn: (T, T) -> int
    /** The nodes in link order, and the elements they hold. */
    ghost var Nodes: seq<Node<T>>
    ghost var Contents: seq<T>

    /** `Nodes` is the chain reachable from `head`: distinct nodes, each linked to
        the next, the last one to null, and `size` of them. */
    ghost predicate Valid()
      reads this, Nodes
    {
      && |Nodes| == size
      && |Contents| == size
      && (size == 0 ==> head == null)
      && (size > 0 ==> head == Nodes[0] && Nodes[size - 1].next == null)
      && (forall i :: 0 <= i < size ==> Nodes[i].elem == Contents[i])
      && (forall i :: 0 <= i < size - 1 ==> Nodes[i].next == Nodes[i + 1])
      && (forall i, j :: 0 <= i < j < size ==> Nodes[i] != Nodes[j])
    }

    /** The list is empty exactly when there is no head node. */
    lemma HeadNull()
      requires Valid()
      ensures head == null <==> size == 0
      ensures head == null <==> Contents == []
    {
    }

    /** `c_slist_new`: an empty list ordered by `cmp` for searching. */
    constructor (cmp: (T, T) -> int)
      ensures Valid() && Contents == [] && Nodes == [] && compareFn == cmp
    {
      head := null;
      size := 0;
      compareFn := cmp;
      Nodes := [];
      Contents := [];
    }

    /** Walks `k` links from `head`, to the node at position `k`. */
    method NodeAt(k: nat) returns (n: Node<T>)
      requires Valid() && k < size
      ensures n == Nodes[k]
    {
      n := head;
      var i := 0;
      while i < k
        invariant i <= k && n == Nodes[i]
      {
        assert n.next == Nodes[i + 1];
        n := n.next;
        i := i + 1;
      }
    }

    /** `c_slist_insert`: puts `x` at position `pos`, so that it comes before the
        element now there; `pos == 0` prepends and `pos == size` appends. A position
        beyond the end is refused with `CLIB_SLIST_INSERT_FAILED`. */
    method Insert(pos: int, x: T) returns (status: Status)
      requires Valid()
      modifies this, Nodes
      ensures Valid()
      ensures status == if 0 <= pos <= old(size) then Success else SlistInsertFailed
      ensures status == Success ==> Contents == old(Contents)[..pos] + [x] + old(Contents)[pos..]
      ensures status != Success ==> Contents == old(Contents) && Nodes == old(Nodes)
      ensures status == Success ==> fresh(Nodes[pos]) && Nodes == old(Nodes)[..pos] + [Nodes[pos]] + old(Nodes)[pos..]
    {
      if pos < 0 || pos > size {
        return SlistInsertFailed;
      }
      if pos == 0 {
        Prepend(x);
      } else {
        InsertAfter(pos - 1, x);
      }
      status := Success;
    }

    /** Links a new first node holding `x` in front of `head`. */
    method Prepend(x: T)
      requires Valid()
      modifies this
      ensures Valid() && Contents == [x] + old(Contents)
      ensures fresh(Nodes[0]) && Nodes == [Nodes[0]] + old(Nodes)
    {
      head := new Node(x, head);
      Nodes := [head] + Nodes;
      Contents := [x] + Contents;
      size := size + 1;
    }

    /** Links a new node holding `x` after the node at position `k`. */
    method InsertAfter(k: nat, x: T)
      requires Valid() && k < size
      modifies this, Nodes
      ensures Valid()
      ensures Contents == old(Contents)[..k + 1] + [x] + old(Contents)[k + 1..]
      ensures fresh(Nodes[k + 1]) && Nodes == old(Nodes)[..k + 1] + [Nodes[k + 1]] + old(Nodes)[k + 1..]
    {
      var prev := NodeAt(k);
      var n := new Node(x, prev.next);
      LinkAfter(k, prev, n);
    }

    /** Links `n`, a node not yet in the chain whose `next` is that of `prev`, the
        node at position `k`, in after `prev`. */
    method LinkAfter(k: nat, prev: Node<T>, n: Node<T>)
      requires Valid() && k < size && prev == Nodes[k] && n !in Nodes && n.next == prev.next
      modifies this, prev
      ensures Valid()
      ensures Contents == old(Contents)[..k + 1] + [n.elem] + old(Contents)[k + 1..]
      ensures Nodes == old(Nodes)[..k + 1] + [n] + old(Nodes)[k + 1..]
    {
      prev.next := n;
      ghost var oldNodes := Nodes;
      InsertIndex(Nodes, k + 1, n);
      InsertIndex(Contents, k + 1, n.elem);
      Nodes := Nodes[..k + 1] + [n] + Nodes[k + 1..];
      Contents := Contents[..k + 1] + [n.elem] + Contents[k + 1..];
      size := size + 1;
      assert forall i :: 0 <= i < size - 1 ==> Nodes[i].next == Nodes[i + 1] by {
        forall i | 0 <= i < size - 1
          ensures Nodes[i].next == Nodes[i + 1]
        {
          if i < k {
            assert Nodes[i] == oldNodes[i] != prev;
          } else if i > k + 1 {
            assert Nodes[i] == oldNodes[i - 1] != prev;
          }
        }
      }
    }

    /** Indexing into a sequence with `x` spliced in at position `p`. */
    static lemma InsertIndex<U>(s: seq<U>, p: nat, x: U)
      requires p <= |s|
      ensures |s[..p] + [x] + s[p..]| == |s| + 1 && (s[..p] + [x] + s[p..])[p] == x
      ensures forall j :: 0 <= j < p ==> (s[..p] + [x] + s[p..])[j] == s[j]
      ensures forall j :: p < j <= |s| ==> (s[..p] + [x] + s[p..])[j] == s[j - 1]
    {
    }

    /** `c_slist_push_back`: appends `x` after the last node. */
    method PushBack(x: T) returns (status: Status)
      requires Valid()
      modifies this, Nodes
      ensures Valid() && status == Success
      ensures Contents == old(Contents) + [x]
      ensures fresh(Nodes[|Nodes| - 1]) && Nodes == old(Nodes) + [Nodes[|Nodes| - 1]]
    {
      var n := new Node(x, null);
      if head == null {
        head := n;
      } else {
        var last := NodeAt(size - 1);
        last.next := n;
      }
      Nodes := Nodes + [n];
      Contents := Contents + [x];
      size := size + 1;
      status := Success;
    }

    /** `c_slist_remove`: unlinks the node at position `pos`; a position outside
        `[0, size)` changes nothing. */
    method Remove(pos: int)
      requires Valid()
      modifies this, Nodes
      ensures Valid()
      ensures 0 <= pos < old(size) ==> Contents == old(Contents)[..pos] + old(Contents)[pos + 1..]
      ensures 0 <= pos < old(size) ==> Nodes == old(Nodes)[..pos] + old(Nodes)[pos + 1..]
      ensures !(0 <= pos < old(size)) ==> Contents == old(Contents) && Nodes == old(Nodes)
    {
      if pos < 0 || pos >= size {
        return;
      }
      if pos == 0 {
        DropFirst(Nodes);
        DropFirst(Contents);
        RemoveHead();
      } else {
        var prev := NodeAt(pos - 1);
        RemoveAfter(pos - 1, prev);
      }
    }

    /** Taking out position 0 leaves the tail. */
    static lemma DropFirst<U>(s: seq<U>)
      requires |s| > 0
      ensures s[..0] + s[1..] == s[1..]
    {
    }

    /** Unlinks the first node: its successor becomes `head`. */
    method RemoveHead()
      requires Valid() && size > 0
      modifies this
      ensures Valid()
      ensures Contents == old(Contents)[1..] && Nodes == old(Nodes)[1..]
    {
      head := head.next;
      Nodes := Nodes[1..];
      Contents := Contents[1..];
      size := size - 1;
    }

    /** `prev` is the node at position `k`; unlinks the node at position `k + 1`. */
    method RemoveAfter(k: nat, prev: Node<T>)
      requires Valid() && k + 1 < size && prev == Nodes[k]
      modifies this, prev
      ensures Valid()
      ensures Contents == old(Contents)[..k + 1] + old(Contents)[k + 2..]
      ensures Nodes == old(Nodes)[..k + 1] + old(Nodes)[k + 2..]
    {
      ghost var oldNodes := Nodes;
      assert prev.next == Nodes[k + 1];
      var after := prev.next.next;
      assert after == if k + 2 < size then Nodes[k + 2] else null;
      prev.next := after;
      RemoveIndex(Nodes, k + 1, Nodes[..k + 1] + Nodes[k + 2..]);
      RemoveIndex(Contents, k + 1, Contents[..k + 1] + Contents[k + 2..]);
      RemoveDistinct(Nodes, k + 1, Nodes[..k + 1] + Nodes[k + 2..]);
      Nodes := Nodes[..k + 1] + Nodes[k + 2..];
      Contents := Contents[..k + 1] + Contents[k + 2..];
      size := size - 1;
      assert forall i :: 0 <= i < size ==> Nodes[i].elem == Contents[i];
      assert Nodes[size - 1].next == null by {
        if k + 1 < size {
          assert Nodes[size - 1] == oldNodes[size] != prev;
        }
      }
      assert forall i :: 0 <= i < size - 1 ==> Nodes[i].next == Nodes[i + 1] by {
        forall i | 0 <= i < size - 1
          ensures Nodes[i].next == Nodes[i + 1]
        {
          if i != k {
            assert Nodes[i] == (if i < k then oldNodes[i] else oldNodes[i + 1]) != prev;
          }
        }
      }
    }

    /** Taking an element out of a sequence of distinct elements leaves them
        distinct. */
    static lemma RemoveDistinct<U>(s: seq<U>, p: nat, t: seq<U>)
      requires p < |s| && t == s[..p] + s[p + 1..]
      requires forall i, j :: 0 <= i < j < |s| ==> s[i] != s[j]
      ensures forall i, j :: 0 <= i < j < |t| ==> t[i] != t[j]
    {
      forall i, j | 0 <= i < j < |t|
        ensures t[i] != t[j]
      {
        assert t[i] == s[if i < p then i else i + 1];
        assert t[j] == s[if j < p then j else j + 1];
      }
    }

    /** Indexing into a sequence with its `p`-th element taken out. */
    static lemma RemoveIndex<U>(s: seq<U>, p: nat, t: seq<U>)
      requires p < |s| && t == s[..p] + s[p + 1..]
      ensures |t| == |s| - 1
      ensures forall j :: 0 <= j < p ==> t[j] == s[j]
      ensures forall j :: p <= j < |t| ==> t[j] == s[j + 1]
    {
    }

    /** `c_slist_find`: the first element, head to tail, that the comparator reports
        equal to `v`. */
    method Find(v: T) returns (r: Option<T>)
      requires Valid()
      ensures r == (match IndexOf(compareFn, Contents, v)
                      case None => None
                      case Some(i) => Some(Contents[i]))
    {
      var n := head;
      ghost var i := 0;
      while n != null
        invariant i <= size
        invariant n == if i < size then Nodes[i] else null
        invariant forall j :: 0 <= j < i ==> compareFn(Contents[j], v) != 0
        decreases size - i
      {
        if compareFn(n.elem, v) == 0 {
          assert IndexOf(compareFn, Contents, v) == Some(i);
          return Some(n.elem);
        }
        n := n.next;
        i := i + 1;
      }
      r := None;
    }

    /** `c_slist_for_each`: the elements in the order the callback visits them,
        head to tail. */
    method Elements() returns (s: seq<T>)
      requires Valid()
      ensures s == Contents
    {
      s := [];
      var n := head;
      ghost var i := 0;
      while n != null
        invariant i <= size && s == Contents[..i]
        invariant n == if i < size then Nodes[i] else null
        decreases size - i
      {
        s := s + [n.elem];
        n := n.next;
        i := i + 1;
      }
    }

    /** `c_slist_delete`: every node is released; the list is left empty. */
    method Delete()
      requires Valid()
      modifies this
      ensures Valid() && Contents == [] && Nodes == []
    {
      head := null;
      size := 0;
      Nodes := [];
      Contents := [];
    }
  }
}
