/** The comparator callback of the tree, and the sorted association lists that
    serve as the abstract value of a red-black tree (its in-order entries). */
module Ordering {
  import opened ClibCommon

  /** A `clib_compare` callback answers negative, zero or positive. It is usable as
      a tree order when it is a strict total order whose zero answer means "same key". */
  ghost predicate ValidComparator<K(!new)>(cmp: (K, K) -> int) {
    && (forall a, b :: cmp(a, b) == 0 <==> a == b)
    && (forall a, b :: cmp(a, b) < 0 <==> cmp(b, a) > 0)
    && (forall a, b, c :: cmp(a, b) < 0 && cmp(b, c) < 0 ==> cmp(a, c) < 0)
  }

  /** Keys strictly ascending in comparator order (so no key occurs twice). */
  ghost predicate Sorted<K, V>(cmp: (K, K) -> int, s: seq<(K, V)>) {
    forall i, j :: 0 <= i < j < |s| ==> cmp(s[i].0, s[j].0) < 0
  }

  /** Every key of `s` is smaller than `k`. */
  ghost predicate AllBelow<K, V>(cmp: (K, K) -> int, s: seq<(K, V)>, k: K) {
    forall e :: e in s ==> cmp(e.0, k) < 0
  }

  /** Every key of `s` is larger than `k`. */
  ghost predicate AllAbove<K, V>(cmp: (K, K) -> int, k: K, s: seq<(K, V)>) {
    forall e :: e in s ==> cmp(k, e.0) < 0
  }

  /** `k` is not the key of any entry of `s`. */
  ghost predicate NoKey<K, V>(s: seq<(K, V)>, k: K) {
    forall e :: e in s ==> e.0 != k
  }

  /** The entries of `s` whose key is smaller than `k`, in their order. */
  ghost function Below<K, V>(cmp: (K, K) -> int, s: seq<(K, V)>, k: K): (r: seq<(K, V)>)
    ensures forall e :: e in r ==> e in s && cmp(e.0, k) < 0
    ensures |r| <= |s|
  {
    if s == [] then []
    else (if cmp(s[0].0, k) < 0 then [s[0]] else []) + Below(cmp, s[1..], k)
  }

  /** The entries of `s` whose key is larger than `k`, in their order. */
  ghost function Above<K, V>(cmp: (K, K) -> int, s: seq<(K, V)>, k: K): (r: seq<(K, V)>)
    ensures forall e :: e in r ==> e in s && cmp(e.0, k) > 0
    ensures |r| <= |s|
  {
    if s == [] then []
    else (if cmp(s[0].0, k) > 0 then [s[0]] else []) + Above(cmp, s[1..], k)
  }

  /** The finite map an association list denotes (an earlier entry wins; in a sorted
      list no key repeats, so the order does not matter). */
  ghost function ToMap<K, V>(s: seq<(K, V)>): (m: map<K, V>)
    ensures forall e :: e in s ==> e.0 in m
  {
    if s == [] then map[] else ToMap(s[1..])[s[0].0 := s[0].1]
  }

  /** The first element, if any. */
  function First<T>(s: seq<T>): Option<T> {
    if s == [] then None else Some(s[0])
  }

  lemma {:induction false} BelowConcat<K, V>(cmp: (K, K) -> int, a: seq<(K, V)>, b: seq<(K, V)>, k: K)
    ensures Below(cmp, a + b, k) == Below(cmp, a, k) + Below(cmp, b, k)
  {
    if a != [] {
      assert (a + b)[1..] == a[1..] + b;
      BelowConcat(cmp, a[1..], b, k);
    } else {
      assert a + b == b;
    }
  }

  lemma {:induction false} AboveConcat<K, V>(cmp: (K, K) -> int, a: seq<(K, V)>, b: seq<(K, V)>, k: K)
    ensures Above(cmp, a + b, k) == Above(cmp, a, k) + Above(cmp, b, k)
  {
    if a != [] {
      assert (a + b)[1..] == a[1..] + b;
      AboveConcat(cmp, a[1..], b, k);
    } else {
      assert a + b == b;
    }
  }

  /** Filtering a list that lies entirely below `k`. */
  lemma {:induction false} FilterAllBelow<K(!new), V>(cmp: (K, K) -> int, s: seq<(K, V)>, k: K)
    requires ValidComparator(cmp)
    requires AllBelow(cmp, s, k)
    ensures Below(cmp, s, k) == s && Above(cmp, s, k) == []
  {
    if s != [] {
      assert s[0] in s;
      assert forall e :: e in s[1..] ==> e in s;
      FilterAllBelow(cmp, s[1..], k);
    }
  }

  /** Filtering a list that lies entirely above `k`. */
  lemma {:induction false} FilterAllAbove<K(!new), V>(cmp: (K, K) -> int, s: seq<(K, V)>, k: K)
    requires ValidComparator(cmp)
    requires AllAbove(cmp, k, s)
    ensures Below(cmp, s, k) == [] && Above(cmp, s, k) == s
  {
    if s != [] {
      assert s[0] in s;
      assert forall e :: e in s[1..] ==> e in s;
      FilterAllAbove(cmp, s[1..], k);
    }
  }

  /** A sorted list `a + [x] + b` is sorted on each side of `x`, with `a` below and `b` above. */
  lemma SortedParts<K(!new), V>(cmp: (K, K) -> int, a: seq<(K, V)>, x: (K, V), b: seq<(K, V)>)
    requires Sorted(cmp, a + [x] + b)
    ensures Sorted(cmp, a) && Sorted(cmp, b)
    ensures AllBelow(cmp, a, x.0) && AllAbove(cmp, x.0, b)
  {
    var s := a + [x] + b;
    assert forall i :: 0 <= i < |a| ==> s[i] == a[i];
    assert s[|a|] == x;
    assert forall i :: 0 <= i < |b| ==> s[|a| + 1 + i] == b[i];
    forall i, j | 0 <= i < j < |b| ensures cmp(b[i].0, b[j].0) < 0 {
      assert s[|a| + 1 + i] == b[i] && s[|a| + 1 + j] == b[j];
    }
    forall e | e in b ensures cmp(x.0, e.0) < 0 {
      var i :| 0 <= i < |b| && b[i] == e;
      assert s[|a| + 1 + i] == b[i];
    }
  }

  /** One instance of the comparator's transitivity. */
  lemma Transitive<K(!new)>(cmp: (K, K) -> int, a: K, b: K, c: K)
    requires ValidComparator(cmp) && cmp(a, b) < 0 && cmp(b, c) < 0
    ensures cmp(a, c) < 0
  {
  }

  /** Conversely, sorted sides that lie below and above `x` make a sorted list. */
  lemma SortedJoin<K(!new), V>(cmp: (K, K) -> int, a: seq<(K, V)>, x: (K, V), b: seq<(K, V)>)
    requires ValidComparator(cmp)
    requires Sorted(cmp, a) && Sorted(cmp, b)
    requires AllBelow(cmp, a, x.0) && AllAbove(cmp, x.0, b)
    ensures Sorted(cmp, a + [x] + b)
  {
    forall j | 0 <= j < |b| ensures cmp(x.0, b[j].0) < 0 {
      assert b[j] in b;
    }
    SortedAppend(cmp, [x], b);
    var c := [x] + b;
    forall i, j | 0 <= i < |a| && 0 <= j < |c| ensures cmp(a[i].0, c[j].0) < 0 {
      assert a[i] in a;
      if j > 0 {
        assert c[j] == b[j - 1] && c[j] in b;
        Transitive(cmp, a[i].0, x.0, c[j].0);
      }
    }
    SortedAppend(cmp, a, c);
    AppendAssoc(a, x, b);
  }

  /** Two sorted lists, every key of the first below every key of the second, make a
      sorted list. */
  lemma SortedAppend<K, V>(cmp: (K, K) -> int, lo: seq<(K, V)>, hi: seq<(K, V)>)
    requires Sorted(cmp, lo) && Sorted(cmp, hi)
    requires forall i, j :: 0 <= i < |lo| && 0 <= j < |hi| ==> cmp(lo[i].0, hi[j].0) < 0
    ensures Sorted(cmp, lo + hi)
  {
    var t := lo + hi;
    forall i, j | 0 <= i < j < |t| ensures cmp(t[i].0, t[j].0) < 0 {
      if j < |lo| {
        assert t[i] == lo[i] && t[j] == lo[j];
      } else if i >= |lo| {
        assert t[i] == hi[i - |lo|] && t[j] == hi[j - |lo|];
      } else {
        assert t[i] == lo[i] && t[j] == hi[j - |lo|];
      }
    }
  }

  lemma AppendAssoc<T>(a: seq<T>, x: T, b: seq<T>)
    ensures a + [x] + b == a + ([x] + b)
  {
  }

  /** A list without key `k` contributes nothing to the map at `k`. */
  lemma {:induction false} ToMapAbsent<K, V>(s: seq<(K, V)>, k: K)
    requires NoKey(s, k)
    ensures k !in ToMap(s)
  {
    if s != [] {
      assert s[0] in s;
      assert forall e :: e in s[1..] ==> e in s;
      ToMapAbsent(s[1..], k);
    }
  }

  /** The map of a concatenation: entries of the first part take precedence. */
  lemma {:induction false} ToMapConcat<K, V>(a: seq<(K, V)>, b: seq<(K, V)>)
    ensures ToMap(a + b) == ToMap(b) + ToMap(a)
  {
    if a == [] {
      assert a + b == b;
    } else {
      assert (a + b)[1..] == a[1..] + b;
      ToMapConcat(a[1..], b);
    }
  }

  /** In a sorted list, the map gives each entry's own value. */
  lemma {:induction false} ToMapOfSorted<K(!new), V>(cmp: (K, K) -> int, s: seq<(K, V)>, i: nat)
    requires ValidComparator(cmp) && Sorted(cmp, s) && i < |s|
    ensures s[i].0 in ToMap(s) && ToMap(s)[s[i].0] == s[i].1
  {
    if i > 0 {
      assert cmp(s[0].0, s[i].0) < 0;
      ToMapOfSorted(cmp, s[1..], i - 1);
    }
  }

  /** Raising the bound: everything above `x` is above any `k` below `x`. */
  lemma AboveWeaken<K(!new), V>(cmp: (K, K) -> int, k: K, x: K, s: seq<(K, V)>)
    requires ValidComparator(cmp) && cmp(k, x) < 0 && AllAbove(cmp, x, s)
    ensures AllAbove(cmp, k, s)
  {
    forall e | e in s ensures cmp(k, e.0) < 0 {
      assert cmp(x, e.0) < 0;
    }
  }

  /** Lowering the bound: everything below `x` is below any `k` above `x`. */
  lemma BelowWeaken<K(!new), V>(cmp: (K, K) -> int, s: seq<(K, V)>, x: K, k: K)
    requires ValidComparator(cmp) && cmp(x, k) < 0 && AllBelow(cmp, s, x)
    ensures AllBelow(cmp, s, k)
  {
    forall e | e in s ensures cmp(e.0, k) < 0 {
      assert cmp(e.0, x) < 0;
    }
  }

  /** Filtering a list split around one entry, when each part is known to fall
      wholly on one side of `k`. */
  lemma FilterAround<K, V>(cmp: (K, K) -> int, a: seq<(K, V)>, x: (K, V), b: seq<(K, V)>, k: K)
    requires Below(cmp, a, k) == a && Above(cmp, a, k) == []
    requires Below(cmp, [x], k) == [] && Above(cmp, [x], k) == []
    requires Below(cmp, b, k) == [] && Above(cmp, b, k) == b
    ensures Below(cmp, a + [x] + b, k) == a && Above(cmp, a + [x] + b, k) == b
    ensures a + [x] + b == Below(cmp, a + [x] + b, k) + [x] + Above(cmp, a + [x] + b, k)
  {
    BelowConcat(cmp, a + [x], b, k);
    BelowConcat(cmp, a, [x], k);
    AboveConcat(cmp, a + [x], b, k);
    AboveConcat(cmp, a, [x], k);
    assert a + [] + [] == a;
    assert [] + [] + b == b;
  }

  /** One unfolding step of the filters, for an entry that is kept or skipped. */
  lemma BelowKeep<K, V>(cmp: (K, K) -> int, x: (K, V), rest: seq<(K, V)>, k: K)
    requires cmp(x.0, k) < 0
    ensures Below(cmp, [x] + rest, k) == [x] + Below(cmp, rest, k)
  {
    assert ([x] + rest)[1..] == rest;
  }

  lemma BelowSkip<K, V>(cmp: (K, K) -> int, x: (K, V), rest: seq<(K, V)>, k: K)
    requires !(cmp(x.0, k) < 0)
    ensures Below(cmp, [x] + rest, k) == Below(cmp, rest, k)
  {
    assert ([x] + rest)[1..] == rest;
  }

  lemma AboveKeep<K, V>(cmp: (K, K) -> int, x: (K, V), rest: seq<(K, V)>, k: K)
    requires cmp(x.0, k) > 0
    ensures Above(cmp, [x] + rest, k) == [x] + Above(cmp, rest, k)
  {
    assert ([x] + rest)[1..] == rest;
  }

  lemma AboveSkip<K, V>(cmp: (K, K) -> int, x: (K, V), rest: seq<(K, V)>, k: K)
    requires !(cmp(x.0, k) > 0)
    ensures Above(cmp, [x] + rest, k) == Above(cmp, rest, k)
  {
    assert ([x] + rest)[1..] == rest;
  }

  /** Regrouping a concatenation that starts with one element. */
  lemma ConsAssoc<T>(x: T, a: seq<T>, b: seq<T>)
    ensures [x] + (a + b) == ([x] + a) + b
  {
  }

  /** A sorted list without key `k` is what lies below `k` followed by what lies above it. */
  lemma {:induction false} SplitAbsent<K(!new), V>(cmp: (K, K) -> int, s: seq<(K, V)>, k: K)
    requires ValidComparator(cmp) && Sorted(cmp, s) && NoKey(s, k)
    ensures s == Below(cmp, s, k) + Above(cmp, s, k)
  {
    if s != [] {
      var x, rest := s[0], s[1..];
      Uncons(s);
      SortedParts(cmp, [], x, rest);
      assert x.0 != k by { assert x in s; }
      if cmp(x.0, k) < 0 {
        assert NoKey(rest, k) by {
          forall e | e in rest ensures e.0 != k { assert e in s; }
        }
        SplitAbsent(cmp, rest, k);
        SplitAbsentBelow(cmp, x, rest, k);
      } else {
        SplitAbsentAbove(cmp, x, rest, k);
      }
    }
  }

  /** A non-empty sequence is its first element followed by the rest. */
  lemma Uncons<T>(s: seq<T>)
    requires s != []
    ensures s == [s[0]] + s[1..] && s == [] + [s[0]] + s[1..]
  {
  }

  /** The step of `SplitAbsent` for a first entry below `k`. */
  lemma SplitAbsentBelow<K, V>(cmp: (K, K) -> int, x: (K, V), rest: seq<(K, V)>, k: K)
    requires cmp(x.0, k) < 0 && !(cmp(x.0, k) > 0)
    requires rest == Below(cmp, rest, k) + Above(cmp, rest, k)
    ensures [x] + rest == Below(cmp, [x] + rest, k) + Above(cmp, [x] + rest, k)
  {
    BelowKeep(cmp, x, rest, k);
    AboveSkip(cmp, x, rest, k);
    ConsAssoc(x, Below(cmp, rest, k), Above(cmp, rest, k));
  }

  /** The step of `SplitAbsent` for a first entry above `k`: everything is above. */
  lemma SplitAbsentAbove<K(!new), V>(cmp: (K, K) -> int, x: (K, V), rest: seq<(K, V)>, k: K)
    requires ValidComparator(cmp) && x.0 != k && !(cmp(x.0, k) < 0) && AllAbove(cmp, x.0, rest)
    ensures [x] + rest == Below(cmp, [x] + rest, k) + Above(cmp, [x] + rest, k)
  {
    assert cmp(k, x.0) < 0;
    AboveWeaken(cmp, k, x.0, rest);
    FilterAllAbove(cmp, rest, k);
    BelowSkip(cmp, x, rest, k);
    AboveKeep(cmp, x, rest, k);
  }

  /** A sorted list holding entry `s[i]` is what lies below its key, the entry, and
      what lies above its key, which is the suffix after position `i`. */
  lemma SplitAt<K(!new), V>(cmp: (K, K) -> int, s: seq<(K, V)>, i: nat)
    requires ValidComparator(cmp) && Sorted(cmp, s) && i < |s|
    ensures s == Below(cmp, s, s[i].0) + [s[i]] + Above(cmp, s, s[i].0)
    ensures Above(cmp, s, s[i].0) == s[i + 1..]
  {
    Split3(s, i);
    FilterAt(cmp, s[..i], s[i], s[i + 1..]);
  }

  /** A sequence is its prefix before `i`, its `i`-th element and the rest. */
  lemma Split3<T>(s: seq<T>, i: nat)
    requires i < |s|
    ensures s == s[..i] + [s[i]] + s[i + 1..]
  {
  }

  /** Both filters distribute over a list split around one entry. */
  lemma FilterConcat3<K, V>(cmp: (K, K) -> int, a: seq<(K, V)>, x: (K, V), b: seq<(K, V)>, k: K)
    ensures Below(cmp, a + [x] + b, k) == Below(cmp, a, k) + Below(cmp, [x], k) + Below(cmp, b, k)
    ensures Above(cmp, a + [x] + b, k) == Above(cmp, a, k) + Above(cmp, [x], k) + Above(cmp, b, k)
  {
    BelowConcat(cmp, a + [x], b, k);
    BelowConcat(cmp, a, [x], k);
    AboveConcat(cmp, a + [x], b, k);
    AboveConcat(cmp, a, [x], k);
  }

  /** Filtering a sorted `a + [x] + b` by a key smaller than `x`'s: only `a` is split. */
  lemma FilterLeft<K(!new), V>(cmp: (K, K) -> int, a: seq<(K, V)>, x: (K, V), b: seq<(K, V)>, k: K)
    requires ValidComparator(cmp) && Sorted(cmp, a + [x] + b) && cmp(k, x.0) < 0
    ensures Below(cmp, a + [x] + b, k) == Below(cmp, a, k)
    ensures Above(cmp, a + [x] + b, k) == Above(cmp, a, k) + [x] + b
  {
    SortedParts(cmp, a, x, b);
    AboveWeaken(cmp, k, x.0, b);
    FilterAllAbove(cmp, b, k);
    BelowSkip(cmp, x, [], k);
    AboveKeep(cmp, x, [], k);
    FilterConcat3(cmp, a, x, b, k);
    assert Below(cmp, [x], k) == [] && Above(cmp, [x], k) == [x];
    assert Below(cmp, a, k) + [] + [] == Below(cmp, a, k);
  }

  /** Filtering a sorted `a + [x] + b` by a key larger than `x`'s: only `b` is split. */
  lemma FilterRight<K(!new), V>(cmp: (K, K) -> int, a: seq<(K, V)>, x: (K, V), b: seq<(K, V)>, k: K)
    requires ValidComparator(cmp) && Sorted(cmp, a + [x] + b) && cmp(k, x.0) > 0
    ensures Below(cmp, a + [x] + b, k) == a + [x] + Below(cmp, b, k)
    ensures Above(cmp, a + [x] + b, k) == Above(cmp, b, k)
  {
    SortedParts(cmp, a, x, b);
    BelowWeaken(cmp, a, x.0, k);
    FilterAllBelow(cmp, a, k);
    BelowKeep(cmp, x, [], k);
    AboveSkip(cmp, x, [], k);
    FilterConcat3(cmp, a, x, b, k);
    assert Below(cmp, [x], k) == [x] && Above(cmp, [x], k) == [];
    assert [] + [] + Above(cmp, b, k) == Above(cmp, b, k);
  }

  /** Filtering a sorted `a + [x] + b` by `x`'s own key gives back `a` and `b`. */
  lemma FilterAt<K(!new), V>(cmp: (K, K) -> int, a: seq<(K, V)>, x: (K, V), b: seq<(K, V)>)
    requires ValidComparator(cmp) && Sorted(cmp, a + [x] + b)
    ensures Below(cmp, a + [x] + b, x.0) == a && Above(cmp, a + [x] + b, x.0) == b
  {
    SortedParts(cmp, a, x, b);
    FilterAllBelow(cmp, a, x.0);
    FilterAllAbove(cmp, b, x.0);
    BelowSkip(cmp, x, [], x.0);
    AboveSkip(cmp, x, [], x.0);
    FilterAround(cmp, a, x, b, x.0);
  }

  /** The two halves of a sorted list are sorted. */
  lemma SortedHalves<K, V>(cmp: (K, K) -> int, a: seq<(K, V)>, b: seq<(K, V)>)
    requires Sorted(cmp, a + b)
    ensures Sorted(cmp, a) && Sorted(cmp, b)
  {
    var s := a + b;
    assert forall i :: 0 <= i < |a| ==> s[i] == a[i];
    forall i, j | 0 <= i < j < |b| ensures cmp(b[i].0, b[j].0) < 0 {
      assert s[|a| + i] == b[i] && s[|a| + j] == b[j];
    }
  }

  /** A key absent from `a + [x] + b` is absent from each part. */
  lemma NoKeyParts<K, V>(a: seq<(K, V)>, x: (K, V), b: seq<(K, V)>, k: K)
    requires NoKey(a + [x] + b, k)
    ensures NoKey(a, k) && x.0 != k && NoKey(b, k)
  {
    assert x in a + [x] + b;
    forall e | e in a ensures e.0 != k { assert e in a + [x] + b; }
    forall e | e in b ensures e.0 != k { assert e in a + [x] + b; }
  }

  /** Putting an entry with a new key between the parts of a sorted list below and
      above that key gives a sorted list. */
  lemma SortedInsert<K(!new), V>(cmp: (K, K) -> int, s: seq<(K, V)>, k: K, v: V)
    requires ValidComparator(cmp) && Sorted(cmp, s) && NoKey(s, k)
    ensures Sorted(cmp, Below(cmp, s, k) + [(k, v)] + Above(cmp, s, k))
  {
    SplitAbsent(cmp, s, k);
    SortedHalves(cmp, Below(cmp, s, k), Above(cmp, s, k));
    SortedJoin(cmp, Below(cmp, s, k), (k, v), Above(cmp, s, k));
  }

  /** Leaving out the entries with key `k` keeps a list sorted. */
  lemma SortedRemove<K(!new), V>(cmp: (K, K) -> int, s: seq<(K, V)>, k: K)
    requires ValidComparator(cmp) && Sorted(cmp, s)
    ensures Sorted(cmp, Below(cmp, s, k) + Above(cmp, s, k))
  {
    var lo, hi := Below(cmp, s, k), Above(cmp, s, k);
    SortedBelow(cmp, s, k);
    SortedAbove(cmp, s, k);
    forall e | e in hi ensures cmp(k, e.0) < 0 {
      assert cmp(e.0, k) > 0;
    }
    SortedConcat(cmp, lo, k, hi);
  }

  /** Sorted lists on either side of a key `k` that is in neither make a sorted list. */
  lemma SortedConcat<K(!new), V>(cmp: (K, K) -> int, lo: seq<(K, V)>, k: K, hi: seq<(K, V)>)
    requires ValidComparator(cmp) && Sorted(cmp, lo) && Sorted(cmp, hi)
    requires AllBelow(cmp, lo, k) && AllAbove(cmp, k, hi)
    ensures Sorted(cmp, lo + hi)
  {
    forall i, j | 0 <= i < |lo| && 0 <= j < |hi| ensures cmp(lo[i].0, hi[j].0) < 0 {
      assert lo[i] in lo && hi[j] in hi;
      Transitive(cmp, lo[i].0, k, hi[j].0);
    }
    SortedAppend(cmp, lo, hi);
  }

  /** Filters of a sorted list are sorted. */
  lemma {:induction false} SortedBelow<K(!new), V>(cmp: (K, K) -> int, s: seq<(K, V)>, k: K)
    requires ValidComparator(cmp) && Sorted(cmp, s)
    ensures Sorted(cmp, Below(cmp, s, k))
  {
    if s != [] {
      var x, rest := s[0], s[1..];
      assert s == [x] + rest;
      assert s == [] + [x] + rest;
      SortedParts(cmp, [], x, rest);
      SortedBelow(cmp, rest, k);
      if cmp(x.0, k) < 0 {
        BelowKeep(cmp, x, rest, k);
        assert AllAbove(cmp, x.0, Below(cmp, rest, k));
        SortedJoin(cmp, [], x, Below(cmp, rest, k));
        assert [] + [x] + Below(cmp, rest, k) == [x] + Below(cmp, rest, k);
      } else {
        BelowSkip(cmp, x, rest, k);
      }
    }
  }

  lemma {:induction false} SortedAbove<K(!new), V>(cmp: (K, K) -> int, s: seq<(K, V)>, k: K)
    requires ValidComparator(cmp) && Sorted(cmp, s)
    ensures Sorted(cmp, Above(cmp, s, k))
  {
    if s != [] {
      var x, rest := s[0], s[1..];
      assert s == [x] + rest;
      assert s == [] + [x] + rest;
      SortedParts(cmp, [], x, rest);
      SortedAbove(cmp, rest, k);
      if cmp(x.0, k) > 0 {
        AboveKeep(cmp, x, rest, k);
        assert AllAbove(cmp, x.0, Above(cmp, rest, k));
        SortedJoin(cmp, [], x, Above(cmp, rest, k));
        assert [] + [x] + Above(cmp, rest, k) == [x] + Above(cmp, rest, k);
      } else {
        AboveSkip(cmp, x, rest, k);
      }
    }
  }

  /** Without key `k` in `a` and `b`, the map of `b + a` is unaffected by removing `k`
      or by setting it. */
  lemma MapPartsAbsent<K, V>(a: seq<(K, V)>, b: seq<(K, V)>, k: K, v: V)
    requires NoKey(a, k) && NoKey(b, k)
    ensures ToMap(a + [(k, v)] + b) - {k} == ToMap(a + b)
    ensures ToMap(a + [(k, v)] + b) == ToMap(a + b)[k := v]
  {
    ToMapAbsent(a, k);
    ToMapAbsent(b, k);
    ToMapConcat(a + [(k, v)], b);
    ToMapConcat(a, [(k, v)]);
    ToMapConcat(a, b);
    assert ToMap([(k, v)]) == map[k := v] by {
      assert [(k, v)][1..] == [];
    }
    MapUnionAbsent(ToMap(a), ToMap(b), k, v);
  }

  lemma MapUnionAbsent<K, V>(ma: map<K, V>, mb: map<K, V>, k: K, v: V)
    requires k !in ma && k !in mb
    ensures mb + (map[k := v] + ma) - {k} == mb + ma
    ensures mb + (map[k := v] + ma) == (mb + ma)[k := v]
  {
  }

  /** Inserting an entry with a new key at its place in a sorted list updates the map
      at that key. */
  lemma ToMapInsert<K(!new), V>(cmp: (K, K) -> int, s: seq<(K, V)>, k: K, v: V)
    requires ValidComparator(cmp) && Sorted(cmp, s) && NoKey(s, k)
    ensures ToMap(Below(cmp, s, k) + [(k, v)] + Above(cmp, s, k)) == ToMap(s)[k := v]
  {
    SplitAbsent(cmp, s, k);
    MapPartsAbsent(Below(cmp, s, k), Above(cmp, s, k), k, v);
  }

  /** Leaving out the entries with key `k` removes `k` from the map. */
  lemma ToMapRemove<K(!new), V>(cmp: (K, K) -> int, s: seq<(K, V)>, k: K)
    requires ValidComparator(cmp) && Sorted(cmp, s)
    ensures ToMap(Below(cmp, s, k) + Above(cmp, s, k)) == ToMap(s) - {k}
  {
    if NoKey(s, k) {
      SplitAbsent(cmp, s, k);
      ToMapAbsent(s, k);
      MinusAbsent(ToMap(s), k);
    } else {
      var i :| 0 <= i < |s| && s[i].0 == k;
      ToMapRemoveAt(cmp, s, i);
    }
  }

  /** Taking an absent key out of a map leaves it as it was. */
  lemma MinusAbsent<K, V>(m: map<K, V>, k: K)
    requires k !in m
    ensures m - {k} == m
  {
  }

  /** `ToMapRemove` for a key that occurs, at position `i`. */
  lemma ToMapRemoveAt<K(!new), V>(cmp: (K, K) -> int, s: seq<(K, V)>, i: nat)
    requires ValidComparator(cmp) && Sorted(cmp, s) && i < |s|
    ensures ToMap(Below(cmp, s, s[i].0) + Above(cmp, s, s[i].0)) == ToMap(s) - {s[i].0}
  {
    var k, v := s[i].0, s[i].1;
    var lo, hi := Below(cmp, s, k), Above(cmp, s, k);
    SplitAt(cmp, s, i);
    assert s[i] == (k, v);
    assert s == lo + [(k, v)] + hi;
    SortedParts(cmp, lo, (k, v), hi);
    BelowNoKey(cmp, lo, k);
    AboveNoKey(cmp, k, hi);
    MapPartsAbsent(lo, hi, k, v);
  }

  /** Keys above `k` are not `k`. */
  lemma AboveNoKey<K(!new), V>(cmp: (K, K) -> int, k: K, s: seq<(K, V)>)
    requires ValidComparator(cmp) && AllAbove(cmp, k, s)
    ensures NoKey(s, k)
  {
    forall e | e in s ensures e.0 != k {
      assert cmp(k, e.0) < 0;
    }
  }

  /** Keys below `k` are not `k`. */
  lemma BelowNoKey<K(!new), V>(cmp: (K, K) -> int, s: seq<(K, V)>, k: K)
    requires ValidComparator(cmp) && AllBelow(cmp, s, k)
    ensures NoKey(s, k)
  {
    forall e | e in s ensures e.0 != k {
      assert cmp(e.0, k) < 0;
    }
  }

  /** Where only `a` can hold key `k`, the map of `a + [x] + b` agrees with `a`'s at `k`. */
  lemma ToMapLeftPart<K, V>(a: seq<(K, V)>, x: (K, V), b: seq<(K, V)>, k: K)
    requires x.0 != k && NoKey(b, k)
    ensures (k in ToMap(a + [x] + b)) == (k in ToMap(a))
    ensures k in ToMap(a) ==> ToMap(a + [x] + b)[k] == ToMap(a)[k]
  {
    ToMapAbsent(b, k);
    ToMapConcat(a + [x], b);
    ToMapConcat(a, [x]);
    assert [x][1..] == [];
  }

  /** Where only `b` can hold key `k`, the map of `a + [x] + b` agrees with `b`'s at `k`. */
  lemma ToMapRightPart<K, V>(a: seq<(K, V)>, x: (K, V), b: seq<(K, V)>, k: K)
    requires x.0 != k && NoKey(a, k)
    ensures (k in ToMap(a + [x] + b)) == (k in ToMap(b))
    ensures k in ToMap(b) ==> ToMap(a + [x] + b)[k] == ToMap(b)[k]
  {
    ToMapAbsent(a, k);
    ToMapConcat(a + [x], b);
    ToMapConcat(a, [x]);
    assert [x][1..] == [];
  }

  /** An entry whose key does not occur before it gives the map its value. */
  lemma ToMapMiddle<K, V>(a: seq<(K, V)>, x: (K, V), b: seq<(K, V)>)
    requires NoKey(a, x.0)
    ensures x.0 in ToMap(a + [x] + b) && ToMap(a + [x] + b)[x.0] == x.1
  {
    ToMapAbsent(a, x.0);
    ToMapConcat(a + [x], b);
    ToMapConcat(a, [x]);
    assert [x][1..] == [];
  }

  lemma Regroup5<T>(a: seq<T>, p: seq<T>, b: seq<T>, q: seq<T>, c: seq<T>)
    ensures a + p + (b + q + c) == (a + p + b) + q + c
  {
  }

  /** Extending a prefix by the next element. */
  lemma TakeNext<T>(s: seq<T>, n: nat)
    requires n < |s|
    ensures s[..n + 1] == s[..n] + [s[n]]
  {
  }

  /** The keys of the map are the keys of the entries. */
  lemma {:induction false} ToMapHasKey<K, V>(s: seq<(K, V)>, k: K)
    ensures k in ToMap(s) <==> exists i :: 0 <= i < |s| && s[i].0 == k
  {
    if s != [] {
      ToMapHasKey(s[1..], k);
      if k in ToMap(s[1..]) {
        var i :| 0 <= i < |s[1..]| && s[1..][i].0 == k;
        assert s[i + 1].0 == k;
      }
      if i :| 0 < i < |s| && s[i].0 == k {
        assert s[1..][i - 1].0 == k;
      }
    }
  }

  /** In a sorted list, being an entry is the same as being a pair of the map. */
  lemma SortedEntryIn<K(!new), V>(cmp: (K, K) -> int, s: seq<(K, V)>, e: (K, V))
    requires ValidComparator(cmp) && Sorted(cmp, s)
    ensures e in s <==> e.0 in ToMap(s) && ToMap(s)[e.0] == e.1
  {
    if e in s {
      var i :| 0 <= i < |s| && s[i] == e;
      ToMapOfSorted(cmp, s, i);
    } else if e.0 in ToMap(s) {
      ToMapHasKey(s, e.0);
      var i :| 0 <= i < |s| && s[i].0 == e.0;
      ToMapOfSorted(cmp, s, i);
      assert s[i] != e;
    }
  }
}
