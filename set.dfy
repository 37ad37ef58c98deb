/** `struct clib_set`: a red-black tree whose nodes carry keys only. */
module ClibSet {
  import opened ClibCommon
  import opened Ordering
  import opened RedBlack
  import opened ClibRb

  class Set<K(!new)> {
    const root: RbTree<K, ()>

    ghost predicate Valid()
      reads this, root
    {
      root.Valid()
    }

    /** The keys the set holds. */
    ghost function Keys(): set<K>
      reads this, root
    {
      root.Model().Keys
    }

    /** `c_set_new`. */
    constructor (cmp: (K, K) -> int)
      requires ValidComparator(cmp)
      ensures Valid() && fresh(root) && root.compareFn == cmp && Keys() == {}
    {
      root := new RbTree(cmp);
    }

    /** `c_set_insert`: adds a key not yet present; a present key is rejected as a
        duplicate. */
    method Insert(k: K) returns (status: Status)
      requires Valid()
      modifies root
      ensures Valid()
      ensures status == if k in old(Keys()) then RbtreeKeyDuplicate else Success
      ensures Keys() == old(Keys()) + {k}
    {
      status := root.Insert(k, ());
    }

    /** `c_set_exists`. */
    method Exists(k: K) returns (b: bool)
      requires Valid()
      ensures b <==> k in Keys()
    {
      var r := root.Find(k);
      b := r.Some?;
    }

    /** `c_set_remove`: takes the key out; an absent key is reported as not found. */
    method Remove(k: K) returns (status: Status)
      requires Valid()
      modifies root
      ensures Valid()
      ensures status == if k in old(Keys()) then Success else RbtreeKeyNotFound
      ensures Keys() == old(Keys()) - {k}
    {
      var r := root.Remove(k);
      status := if r.Some? then Success else RbtreeKeyNotFound;
    }

    /** `c_set_find`: the stored key equal to `k`, if any. */
    method Find(k: K) returns (r: Option<K>)
      requires Valid()
      ensures r == if k in Keys() then Some(k) else None
    {
      var e := root.Find(k);
      r := if e.Some? then Some(e.value.0) else None;
    }

    /** `c_set_delete`: all keys are released. */
    method Delete() returns (status: Status)
      requires Valid()
      modifies root
      ensures Valid() && Keys() == {} && status == Success
    {
      status := root.Delete();
    }

    /** What an iterator over the set yields: each key once, in strictly ascending
        comparator order. */
    method Elements() returns (s: seq<K>)
      requires Valid()
      ensures forall i, j :: 0 <= i < j < |s| ==> root.compareFn(s[i], s[j]) < 0
      ensures forall k :: k in s <==> k in Keys()
    {
      var es := root.Elements();
      s := [];
      var i := 0;
      while i < |es|
        invariant i <= |es| && |s| == i
        invariant forall j :: 0 <= j < i ==> s[j] == es[j].0
      {
        s := s + [es[i].0];
        i := i + 1;
      }
      forall k ensures k in s <==> k in Keys() {
        ToMapHasKey(es, k);
        if k in s {
          var j :| 0 <= j < |s| && s[j] == k;
          assert es[j].0 == k;
        }
      }
    }
  }
}
