/**
 * Fixed-capacity, insertion-ordered set and dictionary.
 *
 * Both containers are an index (a hash set or hash map) plus the order in
 * which keys were last inserted, oldest first. Inserting a new key past the
 * capacity silently drops the oldest key; inserting a key that is already
 * present moves it to the newest end.
 */
module CollectionsExtra {
  import opened Wrappers

  /** No key occurs twice. */
  predicate Distinct<T(==)>(s: seq<T>) {
    forall i, j :: 0 <= i < j < |s| ==> s[i] != s[j]
  }

  /** The keys of an order, as a set. */
  function Elements<T>(s: seq<T>): set<T> {
    set x | x in s
  }

  /** `s` with every occurrence of `x` removed; the others keep their order. */
  function Without<T(==)>(s: seq<T>, x: T): (r: seq<T>)
    ensures forall i :: 0 <= i < |r| ==> r[i] in s && r[i] != x
    ensures x !in s ==> r == s
  {
    if s == [] then []
    else if s[0] == x then Without(s[1..], x)
    else [s[0]] + Without(s[1..], x)
  }

  /** Removing a key from a distinct order keeps it distinct and one shorter. */
  lemma {:induction false} WithoutDistinct<T>(s: seq<T>, x: T)
    requires Distinct(s)
    ensures Distinct(Without(s, x))
    ensures x in s ==> |Without(s, x)| == |s| - 1
  {
    if s != [] {
      WithoutDistinct(s[1..], x);
    }
  }

  /** Removing the first key of a distinct order is dropping its head. */
  lemma WithoutFirst<T>(s: seq<T>)
    requires Distinct(s) && |s| > 0
    ensures Without(s, s[0]) == s[1..]
  {
    assert s[0] !in s[1..];
  }

  /** Every key other than `x` survives `Without(s, x)`. */
  lemma {:induction false} WithoutKeeps<T>(s: seq<T>, x: T, y: T)
    requires y in s && y != x
    ensures y in Without(s, x)
  {
    if s[0] != y {
      WithoutKeeps(s[1..], x, y);
    }
  }

  /** Appending a key not yet present keeps an order distinct. */
  lemma DistinctAppend<T>(s: seq<T>, x: T)
    requires Distinct(s) && x !in s
    ensures Distinct(s + [x])
  {
  }

  lemma ElementsAppend<T>(s: seq<T>, x: T)
    ensures Elements(s + [x]) == Elements(s) + {x}
  {
  }

  lemma ElementsWithout<T>(s: seq<T>, x: T)
    ensures Elements(Without(s, x)) == Elements(s) - {x}
  {
    var r := Without(s, x);
    forall y | y in Elements(r) ensures y in Elements(s) - {x} {
      var i :| 0 <= i < |r| && r[i] == y;
    }
    forall y | y in Elements(s) - {x} ensures y in Elements(r) {
      WithoutKeeps(s, x, y);
    }
  }

  /** A distinct order has as many keys as elements. */
  lemma {:induction false} DistinctCardinality<T>(s: seq<T>)
    requires Distinct(s)
    ensures |Elements(s)| == |s|
  {
    if s != [] {
      var t := s[1..];
      DistinctCardinality(t);
      assert Elements(s) == Elements(t) + {s[0]};
      assert s[0] !in t;
    }
  }

  /** The invariant both containers keep: distinct keys, never more than `maxSize`. */
  predicate BoundedOrder<T(==)>(order: seq<T>, maxSize: nat) {
    Distinct(order) && |order| <= maxSize
  }

  /** Drops the oldest key when the order has grown past the capacity. */
  function EvictOldest<T>(order: seq<T>, maxSize: nat): seq<T> {
    if |order| > maxSize then order[1..] else order
  }

  /** The key order after `LimitedSizeOrderedSet.add(x)`. */
  function SetAdd<T(==)>(order: seq<T>, x: T, maxSize: nat): seq<T> {
    if x in order then Without(order, x) + [x]
    else EvictOldest(order + [x], maxSize)
  }

  /** The key order after `LimitedSizeOrderedDict[k] = v`. */
  function PutOrder<K(==)>(order: seq<K>, k: K, maxSize: nat): seq<K> {
    EvictOldest(Without(order, k) + [k], maxSize)
  }

  /** The values after `LimitedSizeOrderedDict[k] = v`: `v` is stored under
      `k`, and the entry of the oldest key goes when that eviction happens. */
  function PutValues<K(==), V>(order: seq<K>, values: map<K, V>, k: K, v: V, maxSize: nat): map<K, V> {
    var refreshed := Without(order, k) + [k];
    if |refreshed| > maxSize then values[k := v] - {refreshed[0]} else values[k := v]
  }

  // ---------------------------------------------------------------------
  // Properties of the set

  /** `add` keeps the keys distinct and never lets the size exceed `maxSize`. */
  lemma SetAddBounded<T>(order: seq<T>, x: T, maxSize: nat)
    requires BoundedOrder(order, maxSize)
    ensures BoundedOrder(SetAdd(order, x, maxSize), maxSize)
    ensures maxSize > 0 ==> x in SetAdd(order, x, maxSize)
  {
    var r := SetAdd(order, x, maxSize);
    if x !in order {
      DistinctAppend(order, x);
      if |order| + 1 > maxSize && maxSize > 0 {
        assert r == (order + [x])[1..];
        assert r[|r| - 1] == x;
      }
    } else {
      ReinsertStep(order, x);
      WithoutDistinct(order, x);
    }
  }

  /** Adding a new key below capacity appends it; at capacity it evicts the
      oldest key and only that one. With capacity zero nothing is kept. */
  lemma SetAddNew<T>(order: seq<T>, x: T, maxSize: nat)
    requires BoundedOrder(order, maxSize) && x !in order
    ensures |order| < maxSize ==> SetAdd(order, x, maxSize) == order + [x]
    ensures |order| == maxSize > 0 ==>
      SetAdd(order, x, maxSize) == order[1..] + [x] &&
      order[0] !in SetAdd(order, x, maxSize) &&
      forall y :: y in order && y != order[0] ==> y in SetAdd(order, x, maxSize)
    ensures maxSize == 0 ==> SetAdd(order, x, maxSize) == []
  {
    if |order| == maxSize > 0 {
      assert (order + [x])[1..] == order[1..] + [x];
      assert order[0] !in order[1..];
      forall y | y in order && y != order[0] ensures y in order[1..] {
        var i :| 0 <= i < |order| && order[i] == y;
        assert order[1..][i - 1] == y;
      }
    }
  }

  /** Adding a key already present keeps the size and the membership and
      moves the key to the newest end; the others keep their relative order. */
  lemma SetAddExisting<T>(order: seq<T>, x: T, maxSize: nat)
    requires BoundedOrder(order, maxSize) && x in order
    ensures var r := SetAdd(order, x, maxSize);
      |r| == |order| && Elements(r) == Elements(order) &&
      r[|r| - 1] == x && r[..|r| - 1] == Without(order, x)
  {
    var r := SetAdd(order, x, maxSize);
    WithoutDistinct(order, x);
    ElementsWithout(order, x);
    ElementsAppend(Without(order, x), x);
    assert r[..|r| - 1] == Without(order, x);
  }

  /** Capacity 5, adding 1 to 6 leaves 2 to 6: the first key is evicted. */
  lemma SetEvictionExample()
    ensures SetAdd([1, 2, 3, 4, 5], 6, 5) == [2, 3, 4, 5, 6]
    ensures SetAdd(SetAdd(SetAdd(SetAdd(SetAdd([], 1, 5), 2, 5), 3, 5), 4, 5), 5, 5) == [1, 2, 3, 4, 5]
  {
  }

  /** Capacity 3: add 1, 2, 3, add 1 again, add 4 evicts 2 rather than 1. */
  lemma SetReinsertExample()
    ensures SetAdd([1, 2, 3], 1, 3) == [2, 3, 1]
    ensures SetAdd([2, 3, 1], 4, 3) == [3, 1, 4]
  {
    assert Without([1, 2, 3], 1) == [2, 3];
  }

  // ---------------------------------------------------------------------
  // Properties of the dictionary

  /** `d[k] = v` keeps the keys distinct and never lets the size exceed `maxSize`. */
  lemma PutOrderBounded<K>(order: seq<K>, k: K, maxSize: nat)
    requires BoundedOrder(order, maxSize)
    ensures BoundedOrder(PutOrder(order, k, maxSize), maxSize)
  {
    ReinsertStep(order, k);
    WithoutDistinct(order, k);
  }

  /** Deleting `k` and appending it again keeps the order distinct, with the
      same keys plus `k`. */
  lemma ReinsertStep<K>(order: seq<K>, k: K)
    requires Distinct(order)
    ensures Distinct(Without(order, k) + [k])
    ensures Elements(Without(order, k) + [k]) == Elements(order) + {k}
    ensures |Elements(Without(order, k) + [k])| == |Without(order, k) + [k]|
  {
    var w := Without(order, k);
    WithoutDistinct(order, k);
    DistinctAppend(w, k);
    ElementsWithout(order, k);
    ElementsAppend(w, k);
    DistinctCardinality(w + [k]);
  }

  /** Popping the first key drops the head of the order and its index entry. */
  lemma EvictStep<K>(order: seq<K>)
    requires Distinct(order) && |order| > 0
    ensures Without(order, order[0]) == order[1..]
    ensures Elements(order[1..]) == Elements(order) - {order[0]}
  {
    WithoutFirst(order);
    ElementsWithout(order, order[0]);
  }

  /** After `d[k] = v` the index holds exactly the keys of the new order, and
      every key other than `k` that stays keeps its value. */
  lemma PutKeepsIndex<K, V>(order: seq<K>, values: map<K, V>, k: K, v: V, maxSize: nat)
    requires BoundedOrder(order, maxSize) && values.Keys == Elements(order)
    ensures PutValues(order, values, k, v, maxSize).Keys == Elements(PutOrder(order, k, maxSize))
    ensures forall j :: j in PutValues(order, values, k, v, maxSize) && j != k ==>
      j in values && PutValues(order, values, k, v, maxSize)[j] == values[j]
  {
    var o := Without(order, k) + [k];
    var newValues := PutValues(order, values, k, v, maxSize);
    ReinsertStep(order, k);
    assert values[k := v].Keys == Elements(o);
    if |o| > maxSize {
      EvictStep(o);
      assert newValues == values[k := v] - {o[0]};
      assert newValues.Keys == Elements(o) - {o[0]};
    }
  }

  /** After `d[k] = v` with a positive capacity, `k` is the newest key and
      `d[k]` gives `v`. */
  lemma PutThenGet<K, V>(order: seq<K>, values: map<K, V>, k: K, v: V, maxSize: nat)
    requires BoundedOrder(order, maxSize) && maxSize > 0
    ensures var newOrder := PutOrder(order, k, maxSize);
      |newOrder| > 0 && newOrder[|newOrder| - 1] == k &&
      k in PutValues(order, values, k, v, maxSize) && PutValues(order, values, k, v, maxSize)[k] == v
  {
    var o := Without(order, k) + [k];
    var newOrder := PutOrder(order, k, maxSize);
    assert newOrder[|newOrder| - 1] == o[|o| - 1];
    if |o| > maxSize {
      assert o[0] != k by {
        assert |o| >= 2;
        assert o[0] in Without(order, k);
      }
    }
  }

  /** Re-setting a present key neither grows nor shrinks the dictionary. */
  lemma PutExisting<K>(order: seq<K>, k: K, maxSize: nat)
    requires BoundedOrder(order, maxSize) && k in order
    ensures |PutOrder(order, k, maxSize)| == |order|
    ensures Elements(PutOrder(order, k, maxSize)) == Elements(order)
  {
    WithoutDistinct(order, k);
    ElementsWithout(order, k);
    ElementsAppend(Without(order, k), k);
  }

  /** A new key past capacity evicts the oldest key, its value with it, and
      nothing else. */
  lemma PutNewAtCapacity<K, V>(order: seq<K>, values: map<K, V>, k: K, v: V, maxSize: nat)
    requires BoundedOrder(order, maxSize) && k !in order && |order| == maxSize > 0
    ensures PutOrder(order, k, maxSize) == order[1..] + [k]
    ensures PutValues(order, values, k, v, maxSize) == values[k := v] - {order[0]}
  {
    assert (order + [k])[1..] == order[1..] + [k];
  }

  /** Deleting `k` then storing `v` under it is storing `v` under it. */
  lemma DeleteThenStore<K, V>(values: map<K, V>, k: K, v: V)
    ensures (values - {k})[k := v] == values[k := v]
  {
  }

  /** Storing `k` leaves one entry per key of the refreshed order. */
  lemma SetItemSize<K, V>(order: seq<K>, values: map<K, V>, k: K, v: V)
    requires Distinct(order) && values.Keys == Elements(order)
    ensures |values[k := v]| == |Without(order, k) + [k]|
  {
    var o := Without(order, k) + [k];
    ReinsertStep(order, k);
    assert values[k := v].Keys == Elements(o);
    assert |values[k := v]| == |values[k := v].Keys|;
  }

  /** Popping the first key of the refreshed order drops its head. */
  lemma SetItemEvict<K>(order: seq<K>, k: K)
    requires Distinct(order)
    ensures var o := Without(order, k) + [k]; Without(o, o[0]) == o[1..]
  {
    ReinsertStep(order, k);
    WithoutFirst(Without(order, k) + [k]);
  }

  /** Capacity 3: set 1, 2, 3, re-set 1, then set 4 evicts 2 rather than 1. */
  lemma DictReinsertExample()
    ensures PutOrder([1, 2, 3], 1, 3) == [2, 3, 1]
    ensures PutOrder([2, 3, 1], 4, 3) == [3, 1, 4]
  {
    assert Without([1, 2, 3], 1) == [2, 3];
  }

  /** The values along the same steps: 1 takes "new_1" ... */
  lemma DictReinsertValuesExample()
    ensures PutValues([1, 2, 3], map[1 := "1", 2 := "2", 3 := "3"], 1, "new_1", 3)
         == map[1 := "new_1", 2 := "2", 3 := "3"]
  {
    assert Without([1, 2, 3], 1) + [1] == [2, 3, 1];
    assert map[1 := "1", 2 := "2", 3 := "3"][1 := "new_1"] == map[1 := "new_1", 2 := "2", 3 := "3"];
  }

  /** ... and keeps it when setting 4 evicts 2. */
  lemma DictEvictValuesExample()
    ensures PutValues([2, 3, 1], map[1 := "new_1", 2 := "2", 3 := "3"], 4, "4", 3)
         == map[1 := "new_1", 3 := "3", 4 := "4"]
  {
    assert Without([2, 3, 1], 4) + [4] == [2, 3, 1, 4];
    assert map[1 := "new_1", 2 := "2", 3 := "3"][4 := "4"] - {2} == map[1 := "new_1", 3 := "3", 4 := "4"];
  }

  // ---------------------------------------------------------------------
  // The containers

  /** Raised by `__getitem__` for an absent key. */
  datatype LookupError = KeyError

  /** A set that forgets its oldest element once it holds more than `maxSize`. */
  class LimitedSizeOrderedSet<T(==)> {
    const maxSize: nat
    /** Keys, oldest first. */
    var order: seq<T>
    /** The hash index over the same keys. */
    var members: set<T>

    ghost predicate Valid()
      reads this
    {
      BoundedOrder(order, maxSize) && members == Elements(order)
    }

    constructor (maxSize: nat)
      ensures Valid() && this.maxSize == maxSize && order == []
    {
      this.maxSize := maxSize;
      order := [];
      members := {};
    }

    method Add(x: T)
      requires Valid()
      modifies this
      ensures Valid()
      ensures order == SetAdd(old(order), x, maxSize)
    {
      SetAddBounded(order, x, maxSize);
      if x !in members {
        ElementsAppend(order, x);
        order := order + [x];
        members := members + {x};
        if |order| > maxSize {
          var first := order[0];
          assert Distinct(order);
          WithoutFirst(order);
          ElementsWithout(order, first);
          order := Without(order, first);
          members := members - {first};
        }
      } else {
        SetAddExisting(order, x, maxSize);
        order := Without(order, x) + [x];
      }
    }

    method Clear()
      requires Valid()
      modifies this
      ensures Valid() && order == []
    {
      order := [];
      members := {};
    }

    method Contains(x: T) returns (b: bool)
      requires Valid()
      ensures b <==> x in order
    {
      b := x in members;
    }

    method Len() returns (n: nat)
      requires Valid()
      ensures n == |order| && n <= maxSize
    {
      DistinctCardinality(order);
      n := |members|;
    }

    /** The keys in iteration order, oldest first. */
    method Iter() returns (keys: seq<T>)
      requires Valid()
      ensures keys == order && Distinct(keys) && |keys| <= maxSize
    {
      keys := order;
    }
  }

  /** A dictionary that forgets its oldest key once it holds more than `maxSize`. */
  class LimitedSizeOrderedDict<K(==), V> {
    const maxSize: nat
    /** Keys, oldest first. */
    var order: seq<K>
    /** The hash table holding the values. */
    var values: map<K, V>

    ghost predicate Valid()
      reads this
    {
      BoundedOrder(order, maxSize) && values.Keys == Elements(order)
    }

    constructor (maxSize: nat)
      ensures Valid() && this.maxSize == maxSize && order == [] && values == map[]
    {
      this.maxSize := maxSize;
      order := [];
      values := map[];
    }

    method Clear()
      requires Valid()
      modifies this
      ensures Valid() && order == [] && values == map[]
    {
      order := [];
      values := map[];
    }

    method SetItem(k: K, v: V)
      requires Valid()
      modifies this
      ensures Valid()
      ensures order == PutOrder(old(order), k, maxSize)
      ensures values == PutValues(old(order), old(values), k, v, maxSize)
    {
      DeleteThenStore(values, k, v);
      SetItemSize(order, values, k, v);
      SetItemEvict(order, k);
      PutOrderBounded(order, k, maxSize);
      PutKeepsIndex(order, values, k, v, maxSize);
      if k in values {
        order := Without(order, k);
        values := values - {k};
      }
      order := order + [k];
      values := values[k := v];
      if |values| > maxSize {
        var first := order[0];
        order := Without(order, first);
        values := values - {first};
      }
    }

    method GetItem(k: K) returns (r: Result<V, LookupError>)
      requires Valid()
      ensures k in order ==> r == Ok(values[k])
      ensures k !in order ==> r == Err(KeyError)
    {
      if k in values {
        r := Ok(values[k]);
      } else {
        r := Err(KeyError);
      }
    }

    method Contains(k: K) returns (b: bool)
      requires Valid()
      ensures b <==> k in order
    {
      b := k in values;
    }

    method Len() returns (n: nat)
      requires Valid()
      ensures n == |order| && n <= maxSize
    {
      DistinctCardinality(order);
      assert |values| == |values.Keys|;
      n := |values|;
    }

    /** The keys in iteration order, oldest first. */
    method Iter() returns (keys: seq<K>)
      requires Valid()
      ensures keys == order && Distinct(keys) && |keys| <= maxSize
      ensures forall k :: k in keys <==> k in values
    {
      keys := order;
    }
  }
}
