/** `struct clib_map`: a red-black tree of key/value pairs. */
module ClibMap {
  import opened ClibCommon
  import opened Ordering
  import opened RedBlack
  import opened ClibRb

  class Map<K(!new), V> {
    const root: RbTree<K, V>

    ghost predicate Valid()
      reads this, root
    {
      root.Valid()
    }

    /** The key/value pairs the map holds. */
    ghost function Model(): map<K, V>
      reads this, root
    {
      root.Model()
    }

    /** `c_map_new`. */
    constructor (cmp: (K, K) -> int)
      requires ValidComparator(cmp)
      ensures Valid() && fresh(root) && root.compareFn == cmp && Model() == map[]
    {
      root := new RbTree(cmp);
    }

    /** `c_map_insert`: adds a new key with its value; a present key is rejected as
        a duplicate and keeps its old value (there is no overwrite). */
    method Insert(k: K, v: V) returns (status: Status)
      requires Valid()
      modifies root
      ensures Valid()
      ensures status == if k in old(Model()) then RbtreeKeyDuplicate else Success
      ensures Model() == if k in old(Model()) then old(Model()) else old(Model())[k := v]
    {
      status := root.Insert(k, v);
    }

    /** `c_map_exists`. */
    method Exists(k: K) returns (b: bool)
      requires Valid()
      ensures b <==> k in Model()
    {
      var r := root.Find(k);
      b := r.Some?;
    }

    /** `c_map_remove`: takes the key and its value out; an absent key is reported as
        not found. */
    method Remove(k: K) returns (status: Status)
      requires Valid()
      modifies root
      ensures Valid()
      ensures status == if k in old(Model()) then Success else RbtreeKeyNotFound
      ensures Model() == old(Model()) - {k}
    {
      var r := root.Remove(k);
      status := if r.Some? then Success else RbtreeKeyNotFound;
    }

    /** `c_map_find`: the value stored under `k`, if any. */
    method Find(k: K) returns (r: Option<V>)
      requires Valid()
      ensures r == if k in Model() then Some(Model()[k]) else None
    {
      var e := root.Find(k);
      r := if e.Some? then Some(e.value.1) else None;
    }

    /** `c_map_delete`: all pairs are released. */
    method Delete() returns (status: Status)
      requires Valid()
      modifies root
      ensures Valid() && Model() == map[] && status == Success
    {
      status := root.Delete();
    }

    /** What an iterator over the map yields: every pair, keys strictly ascending. */
    method Elements() returns (s: seq<(K, V)>)
      requires Valid()
      ensures Sorted(root.compareFn, s)
      ensures forall e :: e in s <==> e.0 in Model() && Model()[e.0] == e.1
    {
      s := root.Elements();
      forall e ensures e in s <==> e.0 in Model() && Model()[e.0] == e.1 {
        SortedEntryIn(root.compareFn, s, e);
      }
    }
  }
}
