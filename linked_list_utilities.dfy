/**
 * The (index, element) record the batch operations take, and the stable
 * sort by index that they apply first.
 */
module LinkedListUtilities {
  /** `MultipleElementsHandler`: a 1-based index and the element for it. */
  datatype MultipleElementsHandler<T> = MultipleElementsHandler(index: int, element: T)

  function IndexOf<T>(h: MultipleElementsHandler<T>): int { h.index }

  function Identity(x: int): int { x }

  /** Inserts `x` before the first element of `s` whose key is not smaller. */
  function InsertByKey<T>(x: T, s: seq<T>, key: T -> int): seq<T>
  {
    if s == [] || key(x) <= key(s[0]) then [x] + s
    else [s[0]] + InsertByKey(x, s[1..], key)
  }

  /** Insertion sort by key; an element goes before later ones with an equal key. */
  function SortByKey<T>(s: seq<T>, key: T -> int): seq<T>
  {
    if s == [] then [] else InsertByKey(s[0], SortByKey(s[1..], key), key)
  }

  ghost predicate SortedByKey<T>(s: seq<T>, key: T -> int)
  {
    forall i, j :: 0 <= i < j < |s| ==> key(s[i]) <= key(s[j])
  }

  /** The elements of `s` whose key is `k`, in their order in `s`. */
  function WithKey<T>(s: seq<T>, key: T -> int, k: int): seq<T>
  {
    if s == [] then [] else (if key(s[0]) == k then [s[0]] else []) + WithKey(s[1..], key, k)
  }

  lemma {:induction false} InsertByKeyPermutes<T>(x: T, s: seq<T>, key: T -> int)
    ensures multiset(InsertByKey(x, s, key)) == multiset{x} + multiset(s)
  {
    if s != [] && key(x) > key(s[0]) {
      InsertByKeyPermutes(x, s[1..], key);
      assert s == [s[0]] + s[1..];
    }
  }

  lemma {:induction false} InsertByKeySorted<T>(x: T, s: seq<T>, key: T -> int)
    requires SortedByKey(s, key)
    ensures SortedByKey(InsertByKey(x, s, key), key)
  {
    if s == [] || key(x) <= key(s[0]) {
      var r := [x] + s;
      forall i, j | 0 <= i < j < |r| ensures key(r[i]) <= key(r[j]) {
        if i == 0 && j > 1 { assert key(s[0]) <= key(s[j - 1]); }
      }
    } else {
      var t := InsertByKey(x, s[1..], key);
      InsertByKeySorted(x, s[1..], key);
      InsertByKeyMembers(x, s[1..], key);
      var r := [s[0]] + t;
      forall i, j | 0 <= i < j < |r| ensures key(r[i]) <= key(r[j]) {
        if i == 0 {
          assert r[j] == t[j - 1] && t[j - 1] in t;
          if r[j] != x {
            var m :| 0 <= m < |s[1..]| && s[1..][m] == r[j];
            assert s[m + 1] == r[j];
          }
        } else {
          assert r[i] == t[i - 1] && r[j] == t[j - 1];
        }
      }
    }
  }

  lemma {:induction false} InsertByKeyMembers<T>(x: T, s: seq<T>, key: T -> int)
    ensures forall z :: z in InsertByKey(x, s, key) ==> z == x || z in s
  {
    if s != [] && key(x) > key(s[0]) {
      InsertByKeyMembers(x, s[1..], key);
      assert s == [s[0]] + s[1..];
    }
  }

  /** Equal-key elements: `x` comes out ahead of those already in `s`. */
  lemma {:induction false} InsertByKeyStable<T>(x: T, s: seq<T>, key: T -> int, k: int)
    ensures WithKey(InsertByKey(x, s, key), key, k) == WithKey([x] + s, key, k)
  {
    if s != [] && key(x) > key(s[0]) {
      InsertByKeyStable(x, s[1..], key, k);
      var r := [s[0]] + InsertByKey(x, s[1..], key);
      assert r[1..] == InsertByKey(x, s[1..], key);
      assert ([x] + s[1..])[1..] == s[1..];
      assert ([x] + s)[1..] == s;
      assert s[1..] == ([s[0]] + s[1..])[1..];
    }
  }

  lemma {:induction false} SortByKeyPermutes<T>(s: seq<T>, key: T -> int)
    ensures multiset(SortByKey(s, key)) == multiset(s)
  {
    if s != [] {
      SortByKeyPermutes(s[1..], key);
      InsertByKeyPermutes(s[0], SortByKey(s[1..], key), key);
      assert s == [s[0]] + s[1..];
    }
  }

  lemma {:induction false} SortByKeySorted<T>(s: seq<T>, key: T -> int)
    ensures SortedByKey(SortByKey(s, key), key)
  {
    if s != [] {
      SortByKeySorted(s[1..], key);
      InsertByKeySorted(s[0], SortByKey(s[1..], key), key);
    }
  }

  lemma {:induction false} SortByKeyStable<T>(s: seq<T>, key: T -> int, k: int)
    ensures WithKey(SortByKey(s, key), key, k) == WithKey(s, key, k)
  {
    if s != [] {
      SortByKeyStable(s[1..], key, k);
      InsertByKeyStable(s[0], SortByKey(s[1..], key), key, k);
      assert ([s[0]] + SortByKey(s[1..], key))[1..] == SortByKey(s[1..], key);
    }
  }

  /** `sort_list_multiple_elements_handlers`: Python's stable `sorted` by index. */
  function SortListMultipleElementsHandlers<T>(hs: seq<MultipleElementsHandler<T>>): seq<MultipleElementsHandler<T>>
  {
    SortByKey(hs, IndexOf)
  }

  /**
   * The sorted handlers are a permutation of the input, ordered by index,
   * and handlers with equal indices keep their input order.
   */
  lemma SortListMultipleElementsHandlersSorts<T>(hs: seq<MultipleElementsHandler<T>>)
    ensures var r := SortListMultipleElementsHandlers(hs);
      multiset(r) == multiset(hs) &&
      (forall i, j :: 0 <= i < j < |r| ==> r[i].index <= r[j].index) &&
      (forall k :: WithKey(r, IndexOf, k) == WithKey(hs, IndexOf, k))
  {
    SortByKeyPermutes(hs, IndexOf);
    SortByKeySorted(hs, IndexOf);
    forall k ensures WithKey(SortByKey(hs, IndexOf), IndexOf, k) == WithKey(hs, IndexOf, k) {
      SortByKeyStable(hs, IndexOf, k);
    }
  }

  /** Python's `sorted` on a list of indices. */
  function SortIndices(xs: seq<int>): seq<int>
  {
    SortByKey(xs, Identity)
  }

  /** The sorted indices are an ascending permutation of the input. */
  lemma SortIndicesSorts(xs: seq<int>)
    ensures multiset(SortIndices(xs)) == multiset(xs)
    ensures forall i, j :: 0 <= i < j < |SortIndices(xs)| ==> SortIndices(xs)[i] <= SortIndices(xs)[j]
  {
    SortByKeyPermutes(xs, Identity);
    SortByKeySorted(xs, Identity);
  }
}
