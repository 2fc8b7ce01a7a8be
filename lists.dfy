/** The list operations the arrival-selection pipeline is built from: Python's
    stable `list.sort(key=...)`, the filtering list comprehension, and padding
    with `None` followed by a slice to a fixed number of slots. */
module Lists {
  import opened Wrappers

  /** `s` is in ascending order of `key`. */
  predicate SortedBy<T>(s: seq<T>, key: T -> int)
  {
    forall i, j :: 0 <= i < j < |s| ==> key(s[i]) <= key(s[j])
  }

  /** Inserts `x` after every element whose key does not exceed its own. */
  function InsertSorted<T>(s: seq<T>, x: T, key: T -> int): (r: seq<T>)
    ensures multiset(r) == multiset(s) + multiset{x}
    decreases |s|
  {
    if s == [] || key(s[|s| - 1]) <= key(x) then s + [x]
    else
      assert s == s[..|s| - 1] + [s[|s| - 1]];
      InsertSorted(s[..|s| - 1], x, key) + [s[|s| - 1]]
  }

  /** Python's `list.sort(key=key)`, a stable sort, written as insertion sort:
      each element goes after every earlier element with an equal key. */
  function StableSort<T>(s: seq<T>, key: T -> int): (r: seq<T>)
    ensures multiset(r) == multiset(s)
  {
    if s == [] then []
    else
      assert s == s[..|s| - 1] + [s[|s| - 1]];
      InsertSorted(StableSort(s[..|s| - 1], key), s[|s| - 1], key)
  }

  /** The elements of `s` whose key is `k`, in their order in `s`. */
  function WithKey<T>(s: seq<T>, key: T -> int, k: int): seq<T>
  {
    if s == [] then []
    else WithKey(s[..|s| - 1], key, k) + (if key(s[|s| - 1]) == k then [s[|s| - 1]] else [])
  }

  /** The comprehension `[x for x in s if key(x) >= cutoff]`. */
  function KeepFrom<T>(s: seq<T>, key: T -> int, cutoff: int): (r: seq<T>)
    ensures |r| <= |s|
    ensures forall i :: 0 <= i < |r| ==> key(r[i]) >= cutoff
  {
    if s == [] then []
    else KeepFrom(s[..|s| - 1], key, cutoff) + (if key(s[|s| - 1]) >= cutoff then [s[|s| - 1]] else [])
  }

  /** `s` padded with `None` up to `count` entries, then cut to its first
      `count` entries. */
  function Slots<T>(s: seq<T>, count: nat): (r: seq<Option<T>>)
    ensures |r| == count
  {
    seq(count, i requires 0 <= i < count => if i < |s| then Some(s[i]) else None)
  }

  /** Inserting into a sorted list keeps it sorted. */
  lemma {:induction false} InsertSortedSorted<T>(s: seq<T>, x: T, key: T -> int)
    requires SortedBy(s, key)
    ensures SortedBy(InsertSorted(s, x, key), key)
  {
    if s == [] || key(s[|s| - 1]) <= key(x) {
    } else {
      var init, last := s[..|s| - 1], s[|s| - 1];
      InsertSortedSorted(init, x, key);
      InsertSortedBounded(init, x, key, key(last));
    }
  }

  /** Insertion adds no key above a bound that `s` and `x` respect. */
  lemma {:induction false} InsertSortedBounded<T>(s: seq<T>, x: T, key: T -> int, bound: int)
    requires forall i :: 0 <= i < |s| ==> key(s[i]) <= bound
    requires key(x) <= bound
    ensures forall i :: 0 <= i < |InsertSorted(s, x, key)| ==> key(InsertSorted(s, x, key)[i]) <= bound
  {
    if s != [] && key(s[|s| - 1]) > key(x) {
      InsertSortedBounded(s[..|s| - 1], x, key, bound);
    }
  }

  /** The stable sort yields a list in ascending key order. */
  lemma {:induction false} StableSortSorted<T>(s: seq<T>, key: T -> int)
    ensures SortedBy(StableSort(s, key), key)
  {
    if s != [] {
      StableSortSorted(s[..|s| - 1], key);
      InsertSortedSorted(StableSort(s[..|s| - 1], key), s[|s| - 1], key);
    }
  }

  /** Extending a list by one element extends each of its key classes by at
      most that element. */
  lemma WithKeyAppend<T>(s: seq<T>, x: T, key: T -> int, k: int)
    ensures WithKey(s + [x], key, k) == WithKey(s, key, k) + (if key(x) == k then [x] else [])
  {
    assert (s + [x])[..|s|] == s;
  }

  /** Insertion puts `x` after every element of its own key and leaves every
      other key class as it was. */
  lemma {:induction false} InsertSortedWithKey<T>(s: seq<T>, x: T, key: T -> int, k: int)
    ensures WithKey(InsertSorted(s, x, key), key, k) == WithKey(s, key, k) + (if key(x) == k then [x] else [])
  {
    if s == [] || key(s[|s| - 1]) <= key(x) {
      WithKeyAppend(s, x, key, k);
    } else {
      var init, last := s[..|s| - 1], s[|s| - 1];
      InsertSortedWithKey(init, x, key, k);
      WithKeyAppend(InsertSorted(init, x, key), last, key, k);
      assert s == init + [last];
      WithKeyAppend(init, last, key, k);
    }
  }

  /** Stability: sorting keeps the relative order of elements with equal keys. */
  lemma {:induction false} StableSortStable<T>(s: seq<T>, key: T -> int, k: int)
    ensures WithKey(StableSort(s, key), key, k) == WithKey(s, key, k)
  {
    if s != [] {
      var init, last := s[..|s| - 1], s[|s| - 1];
      var sortedInit := StableSort(init, key);
      var tail := if key(last) == k then [last] else [];
      assert StableSort(s, key) == InsertSorted(sortedInit, last, key);
      assert WithKey(StableSort(s, key), key, k) == WithKey(sortedInit, key, k) + tail by {
        InsertSortedWithKey(sortedInit, last, key, k);
      }
      assert WithKey(sortedInit, key, k) == WithKey(init, key, k) by {
        StableSortStable(init, key, k);
      }
      assert WithKey(s, key, k) == WithKey(init, key, k) + tail;
    }
  }

  /** The filter keeps exactly the elements at or past the cutoff. */
  lemma {:induction false} KeepFromMembership<T>(s: seq<T>, key: T -> int, cutoff: int, x: T)
    ensures x in KeepFrom(s, key, cutoff) <==> x in s && key(x) >= cutoff
  {
    if s != [] {
      var init, last := s[..|s| - 1], s[|s| - 1];
      KeepFromMembership(init, key, cutoff, x);
      assert s == init + [last];
    }
  }

  /** The filter keeps every copy of an element at or past the cutoff and
      none of the others. */
  lemma {:induction false} KeepFromMultiset<T>(s: seq<T>, key: T -> int, cutoff: int, x: T)
    ensures multiset(KeepFrom(s, key, cutoff))[x] == if key(x) >= cutoff then multiset(s)[x] else 0
  {
    if s != [] {
      var init, last := s[..|s| - 1], s[|s| - 1];
      KeepFromMultiset(init, key, cutoff, x);
      assert s == init + [last];
    }
  }

  /** Filtering a sorted list leaves it sorted. */
  lemma {:induction false} KeepFromSorted<T>(s: seq<T>, key: T -> int, cutoff: int)
    requires SortedBy(s, key)
    ensures SortedBy(KeepFrom(s, key, cutoff), key)
  {
    if s != [] {
      var init, last := s[..|s| - 1], s[|s| - 1];
      KeepFromSorted(init, key, cutoff);
      var r' := KeepFrom(init, key, cutoff);
      forall i | 0 <= i < |r'|
        ensures key(r'[i]) <= key(last)
      {
        KeepFromMembership(init, key, cutoff, r'[i]);
        var j :| 0 <= j < |init| && init[j] == r'[i];
        assert s[j] == init[j];
      }
    }
  }

  /** The slots hold the list's first entries in order and then only padding:
      no entry follows a `None`. */
  lemma SlotsShape<T>(s: seq<T>, count: nat)
    ensures forall i :: 0 <= i < count ==> (Slots(s, count)[i].Some? <==> i < |s|)
    ensures forall i :: 0 <= i < count && i < |s| ==> Slots(s, count)[i] == Some(s[i])
    ensures forall i, j :: 0 <= i < j < count && Slots(s, count)[i].None? ==> Slots(s, count)[j].None?
  {
  }
}
