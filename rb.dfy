/** `struct clib_rb`: a tree object with its comparator. Insertion and removal replace
    the root by the rebalanced tree; lookups, the minimum and the successor are loops
    that walk down from a node. */
module ClibRb {
  import opened ClibCommon
  import opened Ordering
  import opened RedBlack

  class RbTree<K(!new), V> {
    var root: Tree<K, V>
    const compareFn: (K, K) -> int

    ghost predicate Valid()
      reads this
    {
      ValidTree(compareFn, root)
    }

    /** The key/value map the tree stores. */
    ghost function Model(): map<K, V>
      reads this
    {
      MapOf(root)
    }

    /** `c_rb_new`: an empty tree (the root is the sentinel). */
    constructor (cmp: (K, K) -> int)
      requires ValidComparator(cmp)
      ensures Valid() && compareFn == cmp && root == Leaf && Model() == map[]
    {
      root := Leaf;
      compareFn := cmp;
    }

    /** `c_rb_find`: walks down by the comparator to the node holding `k`. */
    method Find(k: K) returns (r: Option<(K, V)>)
      requires Valid()
      ensures r == Lookup(compareFn, root, k)
      ensures r == if k in Model() then Some((k, Model()[k])) else None
    {
      var t := root;
      while t.Node?
        invariant Lookup(compareFn, t, k) == Lookup(compareFn, root, k)
        decreases t
      {
        var c := compareFn(k, t.key);
        if c < 0 {
          t := t.left;
        } else if c > 0 {
          t := t.right;
        } else {
          r := Some((t.key, t.value));
          LookupSpec(compareFn, root, k);
          return;
        }
      }
      r := None;
      LookupSpec(compareFn, root, k);
    }

    /** `c_rb_insert`: a new key is added with its value; a key already present is
        reported as `CLIB_RBTREE_KEY_DUPLICATE` and the tree is left unchanged. */
    method Insert(k: K, v: V) returns (status: Status)
      requires Valid()
      modifies this
      ensures Valid()
      ensures status == if k in old(Model()) then RbtreeKeyDuplicate else Success
      ensures Model() == if k in old(Model()) then old(Model()) else old(Model())[k := v]
      ensures k in old(Model()) ==> root == old(root)
    {
      var found := Find(k);
      if found.Some? {
        return RbtreeKeyDuplicate;
      }
      InsertSpec(compareFn, k, v, root);
      root := RedBlack.Insert(compareFn, k, v, root);
      status := Success;
    }

    /** `c_rb_remove`: unlinks the node holding `k` and hands back its entry, or
        reports that there was none. */
    method Remove(k: K) returns (r: Option<(K, V)>)
      requires Valid()
      modifies this
      ensures Valid()
      ensures r == if k in old(Model()) then Some((k, old(Model())[k])) else None
      ensures Model() == old(Model()) - {k}
    {
      r := Find(k);
      DeleteSpec(compareFn, k, root);
      root := RedBlack.Delete(compareFn, k, root);
    }

    /** `c_rb_delete`: every node is released and the tree is left empty. */
    method Delete() returns (status: Status)
      requires Valid()
      modifies this
      ensures Valid() && root == Leaf && Model() == map[] && status == Success
    {
      root := Leaf;
      status := Success;
    }

    /** `c_rb_empty`: whether the root is the sentinel. */
    method Empty() returns (b: bool)
      requires Valid()
      ensures b <==> root.Leaf?
      ensures b <==> Model() == map[]
    {
      b := root.Leaf?;
      EmptySpec(root);
    }

    /** `c_rb_minimum`: follows left links from `x` down to the leftmost node. */
    static method Minimum(x: Tree<K, V>) returns (r: Option<(K, V)>)
      ensures r == Min(x)
      ensures r == First(Entries(x))
    {
      MinSpec(x);
      if x.Leaf? {
        return None;
      }
      var t := x;
      while t.left.Node?
        invariant t.Node? && Min(t) == Min(x)
        decreases t
      {
        t := t.left;
      }
      r := Some((t.key, t.value));
    }

    /** `c_rb_tree_successor`: the entry with the next larger key after `k`, found by
        walking down from the root and remembering the last node left behind on the
        right. */
    method Successor(k: K) returns (r: Option<(K, V)>)
      requires Valid()
      ensures r == Succ(compareFn, root, k)
      ensures r == First(Above(compareFn, Entries(root), k))
    {
      var t := root;
      var candidate: Option<(K, V)> := None;
      while t.Node?
        invariant Succ(compareFn, root, k)
               == (var s := Succ(compareFn, t, k); if s.Some? then s else candidate)
        decreases t
      {
        if compareFn(k, t.key) < 0 {
          candidate := Some((t.key, t.value));
          t := t.left;
        } else {
          t := t.right;
        }
      }
      r := candidate;
      SuccSpec(compareFn, root, k);
    }

    /** The iteration the set and map iterators run: the minimum, then successor
        after successor, which yields every entry in strictly ascending key order. */
    method Elements() returns (s: seq<(K, V)>)
      requires Valid()
      ensures s == Entries(root)
      ensures Sorted(compareFn, s)
    {
      ghost var all := Entries(root);
      ghost var n := 0;
      s := [];
      var cur := Minimum(root);
      while cur.Some?
        invariant n <= |all| && s == all[..n]
        invariant cur == if n < |all| then Some(all[n]) else None
        decreases |all| - n
      {
        SuccOfEntry(compareFn, root, n);
        TakeNext(all, n);
        s := s + [cur.value];
        n := n + 1;
        cur := Successor(cur.value.0);
      }
      assert all[..n] == all;
    }
  }
}
