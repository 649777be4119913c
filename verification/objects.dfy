/** String-keyed maps that remember an order: a Python `dict` (insertion
    order) and a JavaScript object (own-property order). Both are a sequence
    of key/value entries. */
module Objects {
  import opened Wrappers
  import opened Text
  import opened Sequences
  import opened StableSort

  type Entries<V> = seq<(string, V)>

  function KeysOf<V>(e: Entries<V>): (ks: seq<string>)
    ensures |ks| == |e| && forall i :: 0 <= i < |e| ==> ks[i] == e[i].0
  {
    if e == [] then [] else [e[0].0] + KeysOf(e[1..])
  }

  /** No key occurs twice, as in any dict or object. */
  predicate DistinctKeys<V>(e: Entries<V>) {
    forall i, j :: 0 <= i < j < |e| ==> e[i].0 != e[j].0
  }

  /** The value stored under `k` (`d.get(k)`, `obj[k]`). */
  function Lookup<V>(e: Entries<V>, k: string): (r: Option<V>)
    ensures r.None? <==> k !in KeysOf(e)
  {
    if e == [] then None else if e[0].0 == k then Some(e[0].1) else Lookup(e[1..], k)
  }

  /** Python's `d[k] = v`: a new key goes at the end, an existing key keeps
      its place and gets the new value. */
  function Put<V>(e: Entries<V>, k: string, v: V): (r: Entries<V>)
    ensures k in KeysOf(e) ==> |r| == |e|
    ensures k !in KeysOf(e) ==> r == e + [(k, v)]
  {
    if e == [] then [(k, v)]
    else if e[0].0 == k then [(k, v)] + e[1..]
    else [e[0]] + Put(e[1..], k, v)
  }

  /** The assignments `kvs` made one after another. */
  function PutAll<V>(e: Entries<V>, kvs: Entries<V>): Entries<V>
    decreases |kvs|
  {
    if kvs == [] then e else PutAll(Put(e, kvs[0].0, kvs[0].1), kvs[1..])
  }

  /** `Put` has dict semantics: the key now maps to the new value and every
      other key keeps its value. */
  lemma {:induction false} PutLookup<V>(e: Entries<V>, k: string, v: V)
    ensures Lookup(Put(e, k, v), k) == Some(v)
    ensures forall k' :: k' != k ==> Lookup(Put(e, k, v), k') == Lookup(e, k')
  {
    if e != [] && e[0].0 != k {
      PutLookup(e[1..], k, v);
    }
  }

  /** `Put` adds the key at the end if it is new and keeps the key order
      otherwise, so the keys stay distinct. */
  lemma PutKeys<V>(e: Entries<V>, k: string, v: V)
    ensures KeysOf(Put(e, k, v)) == if k in KeysOf(e) then KeysOf(e) else KeysOf(e) + [k]
    ensures DistinctKeys(e) ==> DistinctKeys(Put(e, k, v))
  {
    PutKeyOrder(e, k, v);
    var r := Put(e, k, v);
    if DistinctKeys(e) {
      DistinctKeysOf(e);
      DistinctKeysOf(r);
      var ks := KeysOf(e);
      if k !in ks {
        forall i, j | 0 <= i < j < |ks + [k]| ensures (ks + [k])[i] != (ks + [k])[j] {
          if j < |ks| {
            assert (ks + [k])[i] == ks[i] && (ks + [k])[j] == ks[j];
          } else {
            assert (ks + [k])[i] == ks[i];
          }
        }
      }
    }
  }

  lemma {:induction false} PutKeyOrder<V>(e: Entries<V>, k: string, v: V)
    ensures KeysOf(Put(e, k, v)) == if k in KeysOf(e) then KeysOf(e) else KeysOf(e) + [k]
  {
    if e != [] {
      var r := Put(e, k, v);
      if e[0].0 == k {
        assert r[1..] == e[1..];
        assert KeysOf(r) == [k] + KeysOf(e[1..]);
      } else {
        PutKeyOrder(e[1..], k, v);
        assert r[1..] == Put(e[1..], k, v);
        assert KeysOf(r) == [e[0].0] + KeysOf(Put(e[1..], k, v));
        assert KeysOf(e) == [e[0].0] + KeysOf(e[1..]);
      }
    }
  }

  /** The keys are distinct exactly when the key sequence has no repeats. */
  lemma DistinctKeysOf<V>(e: Entries<V>)
    ensures DistinctKeys(e) <==> forall i, j :: 0 <= i < j < |KeysOf(e)| ==> KeysOf(e)[i] != KeysOf(e)[j]
  {
    var ks := KeysOf(e);
    if DistinctKeys(e) {
      forall i, j | 0 <= i < j < |ks| ensures ks[i] != ks[j] {
        assert ks[i] == e[i].0 && ks[j] == e[j].0;
      }
    } else {
      var i, j :| 0 <= i < j < |e| && e[i].0 == e[j].0;
      assert 0 <= i < j < |KeysOf(e)| && KeysOf(e)[i] == KeysOf(e)[j];
    }
  }

  /** Assigning keys that are all new and pairwise different just appends. */
  lemma {:induction false} PutAllFresh<V>(e: Entries<V>, kvs: Entries<V>)
    requires DistinctKeys(kvs)
    requires forall i :: 0 <= i < |kvs| ==> kvs[i].0 !in KeysOf(e)
    ensures PutAll(e, kvs) == e + kvs
    decreases |kvs|
  {
    if kvs != [] {
      var k, v, rest := kvs[0].0, kvs[0].1, kvs[1..];
      assert kvs == [(k, v)] + rest;
      var e' := e + [(k, v)];
      assert k !in KeysOf(e);
      assert PutAll(e, kvs) == PutAll(e', rest);
      assert Fresh: forall i :: 0 <= i < |rest| ==> rest[i].0 !in KeysOf(e') by {
        PutKeys(e, k, v);
        forall i | 0 <= i < |rest| ensures rest[i].0 !in KeysOf(e') {
          assert rest[i] == kvs[i + 1];
        }
      }
      assert DistinctKeys(rest) by {
        forall i, j | 0 <= i < j < |rest| ensures rest[i].0 != rest[j].0 {
          assert rest[i] == kvs[i + 1] && rest[j] == kvs[j + 1];
        }
      }
      PutAllFresh(e', rest);
      calc {
        PutAll(e, kvs);
        PutAll(e', rest);
        e' + rest;
        { AppendAssoc(e, [(k, v)], rest); }
        e + kvs;
      }
    } else {
      assert e + kvs == e;
    }
  }

  lemma AppendAssoc<T>(a: seq<T>, b: seq<T>, c: seq<T>)
    ensures (a + b) + c == a + (b + c)
  {
  }

  lemma {:induction false} PutAllAppend<V>(e: Entries<V>, a: Entries<V>, b: Entries<V>)
    ensures PutAll(e, a + b) == PutAll(PutAll(e, a), b)
    decreases |a|
  {
    if a != [] {
      assert (a + b)[0] == a[0] && (a + b)[1..] == a[1..] + b;
      PutAllAppend(Put(e, a[0].0, a[0].1), a[1..], b);
    } else {
      assert a + b == b;
    }
  }

  /** A key that is an array index in JavaScript: the canonical decimal
      numeral of an integer below 2^32 - 1. */
  predicate IsArrayIndex(k: string) {
    |k| >= 1 && (forall i :: 0 <= i < |k| ==> IsDigit(k[i])) && (|k| == 1 || k[0] != '0')
    && ValueIn(k, 10) < 0xFFFF_FFFF
  }

  /** A key that is not an array index. */
  predicate IsPlainKey(k: string) {
    !IsArrayIndex(k)
  }

  function IndexValue(k: string): int {
    ValueIn(k, 10)
  }

  /** `Object.keys` order: the array-index keys in ascending numeric order,
      then the other keys in insertion order. */
  function OwnKeys<V>(e: Entries<V>): seq<string> {
    SortBy(Filter(KeysOf(e), IsArrayIndex), IndexValue) + Filter(KeysOf(e), IsPlainKey)
  }

  /** `Object.keys` lists every key exactly once: it is a permutation of the
      insertion order. */
  lemma OwnKeysPermutation<V>(e: Entries<V>)
    ensures multiset(OwnKeys(e)) == multiset(KeysOf(e))
  {
    var ks := KeysOf(e);
    SortByCorrect(Filter(ks, IsArrayIndex), IndexValue);
    FilterComplement(ks, IsArrayIndex, IsPlainKey);
  }

  /** `Object.keys` puts the array indices first, in ascending numeric order,
      and then the other keys in insertion order. */
  lemma OwnKeysOrder<V>(e: Entries<V>)
    ensures var n := |Filter(KeysOf(e), IsArrayIndex)|;
      && n <= |OwnKeys(e)|
      && SortedBy(OwnKeys(e)[..n], IndexValue)
      && (forall i :: 0 <= i < n ==> IsArrayIndex(OwnKeys(e)[i]))
      && OwnKeys(e)[n..] == Filter(KeysOf(e), IsPlainKey)
  {
    var idx := Filter(KeysOf(e), IsArrayIndex);
    var sorted := SortBy(idx, IndexValue);
    var rest := Filter(KeysOf(e), IsPlainKey);
    SortedIndices(idx);
    assert OwnKeys(e) == sorted + rest;
    assert (sorted + rest)[..|idx|] == sorted;
    assert (sorted + rest)[|idx|..] == rest;
  }

  /** Sorting array-index keys by value gives array-index keys, as many. */
  lemma SortedIndices(idx: seq<string>)
    requires forall k :: k in idx ==> IsArrayIndex(k)
    ensures |SortBy(idx, IndexValue)| == |idx|
    ensures SortedBy(SortBy(idx, IndexValue), IndexValue)
    ensures forall i :: 0 <= i < |idx| ==> IsArrayIndex(SortBy(idx, IndexValue)[i])
  {
    var sorted := SortBy(idx, IndexValue);
    SortByCorrect(idx, IndexValue);
    assert |sorted| == |multiset(sorted)| == |multiset(idx)| == |idx|;
    forall i | 0 <= i < |idx| ensures IsArrayIndex(sorted[i]) {
      assert sorted[i] in multiset(idx);
    }
  }


  /** Every key `Object.keys` lists has a value. */
  lemma OwnKeysLookup<V>(e: Entries<V>, k: string)
    requires k in OwnKeys(e)
    ensures Lookup(e, k).Some?
  {
    OwnKeysPermutation(e);
    assert k in multiset(OwnKeys(e));
  }
}
