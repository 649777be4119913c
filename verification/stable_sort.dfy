/** A stable sort by an integer key, the behaviour of JavaScript's
    `Array.prototype.sort` with a comparator `(a, b) => key(a) - key(b)`
    (the standard requires that sort to be stable). */
module StableSort {
  import opened Sequences

  predicate SortedBy<T>(s: seq<T>, key: T -> int) {
    forall i, j :: 0 <= i < j < |s| ==> key(s[i]) <= key(s[j])
  }

  /** The elements of `s` whose key is `k`, in their order in `s`. */
  function WithKey<T>(s: seq<T>, key: T -> int, k: int): seq<T> {
    Filter(s, HasKey(key, k))
  }

  function HasKey<T>(key: T -> int, k: int): T -> bool {
    x => key(x) == k
  }

  /** Puts `x` before the first element whose key is not smaller. */
  function Insert<T>(x: T, s: seq<T>, key: T -> int): (r: seq<T>)
    ensures |r| == |s| + 1
  {
    if s == [] || key(x) <= key(s[0]) then [x] + s else [s[0]] + Insert(x, s[1..], key)
  }

  /** Insertion sort: sorts the tail, then inserts the head in front of every
      element with the same key. */
  function SortBy<T>(s: seq<T>, key: T -> int): (r: seq<T>)
    ensures |r| == |s|
  {
    if s == [] then [] else Insert(s[0], SortBy(s[1..], key), key)
  }

  /** Inserting keeps the elements: `Insert` adds exactly `x`. */
  lemma {:induction false} InsertPermutes<T>(x: T, s: seq<T>, key: T -> int)
    ensures multiset(Insert(x, s, key)) == multiset(s) + multiset{x}
  {
    if s != [] && key(x) > key(s[0]) {
      InsertPermutes(x, s[1..], key);
      assert s == [s[0]] + s[1..];
    }
  }

  /** A lower bound on the keys of `s` and of `x` bounds the keys after
      inserting. */
  lemma {:induction false} InsertLowerBound<T>(x: T, s: seq<T>, key: T -> int, b: int)
    requires b <= key(x)
    requires forall i :: 0 <= i < |s| ==> b <= key(s[i])
    ensures forall i :: 0 <= i < |Insert(x, s, key)| ==> b <= key(Insert(x, s, key)[i])
  {
    if s != [] && key(x) > key(s[0]) {
      InsertLowerBound(x, s[1..], key, b);
    }
  }

  lemma {:induction false} InsertSorted<T>(x: T, s: seq<T>, key: T -> int)
    requires SortedBy(s, key)
    ensures SortedBy(Insert(x, s, key), key)
    ensures multiset(Insert(x, s, key)) == multiset(s) + multiset{x}
  {
    InsertPermutes(x, s, key);
    if s != [] && key(x) > key(s[0]) {
      InsertSorted(x, s[1..], key);
      InsertLowerBound(x, s[1..], key, key(s[0]));
    }
  }

  lemma {:induction false} InsertWithKey<T>(x: T, s: seq<T>, key: T -> int, k: int)
    ensures WithKey(Insert(x, s, key), key, k) == (if key(x) == k then [x] else []) + WithKey(s, key, k)
  {
    var p := HasKey(key, k);
    if s == [] || key(x) <= key(s[0]) {
      FilterAppend([x], s, p);
      FilterSingle(x, p);
    } else {
      InsertWithKey(x, s[1..], key, k);
      InsertWithKeyStep(x, s, key, k);
    }
  }

  /** The step of `InsertWithKey` where `x` goes past the head of `s`. */
  lemma InsertWithKeyStep<T>(x: T, s: seq<T>, key: T -> int, k: int)
    requires s != [] && key(s[0]) < key(x)
    requires WithKey(Insert(x, s[1..], key), key, k) == (if key(x) == k then [x] else []) + WithKey(s[1..], key, k)
    ensures WithKey(Insert(x, s, key), key, k) == (if key(x) == k then [x] else []) + WithKey(s, key, k)
  {
    var p := HasKey(key, k);
    var mine: seq<T> := if key(x) == k then [x] else [];
    var t := Insert(x, s[1..], key);
    assert Insert(x, s, key) == [s[0]] + t;
    FilterAppend([s[0]], t, p);
    FilterAppend([s[0]], s[1..], p);
    FilterSingle(s[0], p);
    assert s == [s[0]] + s[1..];
    var head := Filter([s[0]], p);
    // s[0]'s key is below x's, so at most one of them has key k
    assert head == [] || mine == [];
    calc {
      Filter(Insert(x, s, key), p);
      head + Filter(t, p);
      head + (mine + Filter(s[1..], p));
      { SwapEmpty(head, mine, Filter(s[1..], p)); }
      mine + (head + Filter(s[1..], p));
      mine + Filter(s, p);
    }
  }


  /** Two sequences of which one is empty can trade places in front of a
      third. */
  lemma SwapEmpty<T>(a: seq<T>, b: seq<T>, c: seq<T>)
    requires a == [] || b == []
    ensures a + (b + c) == b + (a + c)
  {
    if a == [] {
      assert a + (b + c) == b + c && a + c == c;
    } else {
      assert b + c == c && b + (a + c) == a + c;
    }
  }

  /** `SortBy` returns the elements of `s` (a permutation), ordered by key, and
      stable: for every key, the elements having it keep their relative order
      from `s`. */
  lemma SortByCorrect<T>(s: seq<T>, key: T -> int)
    ensures SortedBy(SortBy(s, key), key)
    ensures multiset(SortBy(s, key)) == multiset(s)
    ensures forall k :: WithKey(SortBy(s, key), key, k) == WithKey(s, key, k)
  {
    SortBySorted(s, key);
    forall k ensures WithKey(SortBy(s, key), key, k) == WithKey(s, key, k) {
      SortByStable(s, key, k);
    }
  }

  lemma {:induction false} SortBySorted<T>(s: seq<T>, key: T -> int)
    ensures SortedBy(SortBy(s, key), key)
    ensures multiset(SortBy(s, key)) == multiset(s)
  {
    if s != [] {
      SortBySorted(s[1..], key);
      InsertSorted(s[0], SortBy(s[1..], key), key);
      assert s == [s[0]] + s[1..];
    }
  }

  lemma {:induction false} SortByStable<T>(s: seq<T>, key: T -> int, k: int)
    ensures WithKey(SortBy(s, key), key, k) == WithKey(s, key, k)
  {
    if s != [] {
      SortByStable(s[1..], key, k);
      InsertKeepsWithKey(s[0], SortBy(s[1..], key), s[1..], key, k);
      assert s == [s[0]] + s[1..];
    }
  }


  /** The step of `SortByCorrect` for the elements with key `k`: inserting
      `x` into a sequence adds it to the elements with its key. */
  lemma InsertKeepsWithKey<T>(x: T, r: seq<T>, t: seq<T>, key: T -> int, k: int)
    requires WithKey(r, key, k) == WithKey(t, key, k)
    ensures WithKey(Insert(x, r, key), key, k) == WithKey([x] + t, key, k)
  {
    InsertWithKey(x, r, key, k);
    FilterAppend([x], t, HasKey(key, k));
    FilterSingle(x, HasKey(key, k));
  }

}
