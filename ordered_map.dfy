/**
 * The JavaScript `Map` the cart store keeps its entries in, modelled as the list of its
 * (key, value) pairs in iteration order. ECMA-262 iterates a Map in insertion order:
 * `set` on a key that is already present overwrites the value where it stands, `set` on a
 * new key appends, and `delete` takes the pair out without disturbing the others.
 */
module OrderedMaps {
  import opened Wrappers

  /** The keys of an entry list, in iteration order (`Array.from(map.keys())`). */
  function Keys<K, V>(s: seq<(K, V)>): (ks: seq<K>)
    ensures |ks| == |s|
  {
    seq(|s|, i requires 0 <= i < |s| => s[i].0)
  }

  /** The values of an entry list, in iteration order (`Array.from(map.values())`). */
  function Values<K, V>(s: seq<(K, V)>): (vs: seq<V>)
    ensures |vs| == |s|
  {
    seq(|s|, i requires 0 <= i < |s| => s[i].1)
  }

  /** No element occurs twice. */
  predicate Distinct<T(==)>(xs: seq<T>)
  {
    forall i, j :: 0 <= i < j < |xs| ==> xs[i] != xs[j]
  }

  /** The invariant of every `Map`: each key occurs in exactly one pair. */
  predicate UniqueKeys<K(==), V>(s: seq<(K, V)>)
  {
    Distinct(Keys(s))
  }

  /** `map.get(k)`: the value stored under `k`, or `None` for `undefined`. */
  function Find<K(==), V>(s: seq<(K, V)>, k: K): (r: Option<V>)
    ensures r.None? <==> k !in Keys(s)
    ensures r.Some? ==> (k, r.value) in s
  {
    if s == [] then None
    else if s[0].0 == k then
      assert Keys(s)[0] == k;
      Some(s[0].1)
    else
      var r := Find(s[1..], k);
      assert Keys(s) == [s[0].0] + Keys(s[1..]);
      r
  }

  /** `map.set(k, v)`: overwrite the pair for `k` in place, or append a new pair. */
  function Put<K(==), V>(s: seq<(K, V)>, k: K, v: V): (r: seq<(K, V)>)
    ensures |r| == if k in Keys(s) then |s| else |s| + 1
  {
    if s == [] then [(k, v)]
    else if s[0].0 == k then
      assert Keys(s)[0] == k;
      [(k, v)] + s[1..]
    else
      assert Keys(s) == [s[0].0] + Keys(s[1..]);
      [s[0]] + Put(s[1..], k, v)
  }

  /** `set` keeps the key order: an existing key stays where it was, a new key goes last. */
  lemma {:induction false} PutKeys<K, V>(s: seq<(K, V)>, k: K, v: V)
    ensures Keys(Put(s, k, v)) == if k in Keys(s) then Keys(s) else Keys(s) + [k]
  {
    if s == [] {
    } else if s[0].0 == k {
      assert Keys(s)[0] == k;
      assert Keys(Put(s, k, v)) == Keys(s);
    } else {
      assert Keys(s) == [s[0].0] + Keys(s[1..]);
      PutKeys(s[1..], k, v);
      assert Keys(Put(s, k, v)) == [s[0].0] + Keys(Put(s[1..], k, v));
    }
  }

  /** `map.delete(k)`: drop the pair for `k`, keeping the others in order. */
  function Erase<K(==), V>(s: seq<(K, V)>, k: K): (r: seq<(K, V)>)
    ensures k !in Keys(r)
    ensures |r| <= |s|
  {
    if s == [] then []
    else if s[0].0 == k then Erase(s[1..], k)
    else
      var r := [s[0]] + Erase(s[1..], k);
      assert Keys(r) == [s[0].0] + Keys(Erase(s[1..], k));
      r
  }

  /** `new Map(pairs)`: start empty and `set` each pair in turn. */
  function FromPairs<K(==), V>(pairs: seq<(K, V)>): (r: seq<(K, V)>)
    ensures UniqueKeys(r)
  {
    if pairs == [] then []
    else
      var init := FromPairs(pairs[..|pairs| - 1]);
      var last := pairs[|pairs| - 1];
      PutKeepsUnique(init, last.0, last.1);
      Put(init, last.0, last.1)
  }

  lemma PutKeepsUnique<K, V>(s: seq<(K, V)>, k: K, v: V)
    requires UniqueKeys(s)
    ensures UniqueKeys(Put(s, k, v))
  {
    PutKeys(s, k, v);
  }

  /** The first key of a `Map` does not recur among the rest, which is a `Map` again. */
  lemma HeadNotInTail<K, V>(s: seq<(K, V)>)
    requires UniqueKeys(s) && s != []
    ensures s[0].0 !in Keys(s[1..])
    ensures UniqueKeys(s[1..])
  {
    assert Keys(s[1..]) == Keys(s)[1..];
    assert forall j :: 1 <= j < |s| ==> Keys(s)[0] != Keys(s)[j];
  }

  lemma {:induction false} EraseKeepsUnique<K, V>(s: seq<(K, V)>, k: K)
    requires UniqueKeys(s)
    ensures UniqueKeys(Erase(s, k))
    ensures forall x :: x in Keys(Erase(s, k)) <==> x in Keys(s) && x != k
  {
    if s != [] {
      assert Keys(s) == [s[0].0] + Keys(s[1..]);
      HeadNotInTail(s);
      EraseKeepsUnique(s[1..], k);
      if s[0].0 != k {
        var r := Erase(s, k);
        assert Keys(r) == [s[0].0] + Keys(Erase(s[1..], k));
      }
    }
  }

  /** Looking up a key after `set` finds the new value; every other key is unaffected. */
  lemma {:induction false} FindAfterPut<K, V>(s: seq<(K, V)>, k: K, v: V, x: K)
    ensures Find(Put(s, k, v), x) == if x == k then Some(v) else Find(s, x)
  {
    if s != [] && s[0].0 != k {
      FindAfterPut(s[1..], k, v, x);
    }
  }

  /** Looking up a key after `delete` finds nothing for it; every other key is unaffected. */
  lemma {:induction false} FindAfterErase<K, V>(s: seq<(K, V)>, k: K, x: K)
    ensures Find(Erase(s, k), x) == if x == k then None else Find(s, x)
  {
    if s != [] {
      FindAfterErase(s[1..], k, x);
    }
  }

  /** With unique keys, the pair at position `i` is what `get` finds for its key. */
  lemma {:induction false} FindAt<K, V>(s: seq<(K, V)>, i: int)
    requires UniqueKeys(s) && 0 <= i < |s|
    ensures Find(s, s[i].0) == Some(s[i].1)
  {
    if i > 0 {
      assert Keys(s)[0] != Keys(s)[i];
      HeadNotInTail(s);
      FindAt(s[1..], i - 1);
    }
  }

  /** `set` on a key already at position `i` replaces that pair where it stands. */
  lemma {:induction false} PutAt<K, V>(s: seq<(K, V)>, i: int, v: V)
    requires UniqueKeys(s) && 0 <= i < |s|
    ensures Put(s, s[i].0, v) == s[i := (s[i].0, v)]
  {
    if i > 0 {
      assert Keys(s)[0] != Keys(s)[i];
      HeadNotInTail(s);
      PutAt(s[1..], i - 1, v);
      assert s[i := (s[i].0, v)] == [s[0]] + s[1..][i - 1 := (s[i].0, v)];
    }
  }

  /** `set` on a new key appends its pair at the end of the iteration order. */
  lemma {:induction false} PutAbsent<K, V>(s: seq<(K, V)>, k: K, v: V)
    requires k !in Keys(s)
    ensures Put(s, k, v) == s + [(k, v)]
  {
    if s != [] {
      assert Keys(s) == [s[0].0] + Keys(s[1..]);
      PutAbsent(s[1..], k, v);
      assert s + [(k, v)] == [s[0]] + (s[1..] + [(k, v)]);
    }
  }

  /** A second `set` on the same key overrides the first and nothing else. */
  lemma {:induction false} PutPut<K, V>(s: seq<(K, V)>, k: K, v: V, w: V)
    ensures Put(Put(s, k, v), k, w) == Put(s, k, w)
  {
    if s != [] && s[0].0 != k {
      PutPut(s[1..], k, v, w);
    }
  }

  /** `delete` of a key at position `i` removes exactly that pair. */
  lemma {:induction false} EraseAt<K, V>(s: seq<(K, V)>, i: int)
    requires UniqueKeys(s) && 0 <= i < |s|
    ensures Erase(s, s[i].0) == s[..i] + s[i + 1..]
  {
    HeadNotInTail(s);
    if i == 0 {
      EraseAbsent(s[1..], s[0].0);
    } else {
      assert Keys(s)[0] != Keys(s)[i];
      EraseAt(s[1..], i - 1);
      assert s[..i] + s[i + 1..] == [s[0]] + (s[1..][..i - 1] + s[1..][i..]);
    }
  }

  /** `delete` of a key that is not there changes nothing. */
  lemma {:induction false} EraseAbsent<K, V>(s: seq<(K, V)>, k: K)
    requires k !in Keys(s)
    ensures Erase(s, k) == s
  {
    if s != [] {
      assert Keys(s) == [s[0].0] + Keys(s[1..]);
      EraseAbsent(s[1..], k);
    }
  }

  /** Building a `Map` from the pairs of a `Map` gives back the same pairs in the same order. */
  lemma {:induction false} FromPairsOfMap<K, V>(pairs: seq<(K, V)>)
    requires UniqueKeys(pairs)
    ensures FromPairs(pairs) == pairs
  {
    if pairs != [] {
      var n := |pairs| - 1;
      var init := pairs[..n];
      assert Keys(init) == Keys(pairs)[..n];
      FromPairsOfMap(init);
      assert forall j :: 0 <= j < n ==> Keys(init)[j] == Keys(pairs)[j] != Keys(pairs)[n];
      PutAbsent(init, pairs[n].0, pairs[n].1);
      assert init + [pairs[n]] == pairs;
    }
  }

  /** A sequence without repetitions has as many elements as its set of elements. */
  lemma {:induction false} DistinctCount<T>(xs: seq<T>)
    requires Distinct(xs)
    ensures |set x | x in xs| == |xs|
  {
    if xs != [] {
      var rest := xs[1..];
      DistinctCount(rest);
      assert forall j :: 0 <= j < |rest| ==> rest[j] == xs[j + 1] != xs[0];
      assert (set x | x in xs) == (set x | x in rest) + {xs[0]};
    }
  }

  /** A `Map` has one pair, and one value, per distinct key. */
  lemma SizeIsDistinctKeys<K, V>(s: seq<(K, V)>)
    requires UniqueKeys(s)
    ensures |Values(s)| == |s| == |set k | k in Keys(s)|
  {
    DistinctCount(Keys(s));
  }

  /** Every pair after `set` is the new pair or one that was already there. */
  lemma {:induction false} PutPairs<K, V>(s: seq<(K, V)>, k: K, v: V)
    ensures forall p :: p in Put(s, k, v) ==> p == (k, v) || p in s
  {
    if s != [] && s[0].0 != k {
      PutPairs(s[1..], k, v);
    }
  }

  /** Every pair after `delete` was already there. */
  lemma {:induction false} ErasePairs<K, V>(s: seq<(K, V)>, k: K)
    ensures forall p :: p in Erase(s, k) ==> p in s
  {
    if s != [] {
      ErasePairs(s[1..], k);
    }
  }

  /** A JavaScript `Map` object, updated in place by `set` and `delete`. */
  class JsMap<K(==), V> {
    var entries: seq<(K, V)>

    ghost predicate Valid()
      reads this
    {
      UniqueKeys(entries)
    }

    /** `new Map(pairs)`; given the pairs of another `Map`, an equal copy. */
    constructor (pairs: seq<(K, V)>)
      ensures Valid()
      ensures entries == FromPairs(pairs)
      ensures UniqueKeys(pairs) ==> entries == pairs
    {
      entries := FromPairs(pairs);
      if UniqueKeys(pairs) {
        FromPairsOfMap(pairs);
      }
    }

    function Size(): (n: nat)
      reads this
    {
      |entries|
    }

    method Has(k: K) returns (b: bool)
      ensures b <==> k in Keys(entries)
    {
      b := Find(entries, k).Some?;
    }

    method Get(k: K) returns (r: Option<V>)
      ensures r.None? <==> k !in Keys(entries)
      ensures r.Some? ==> (k, r.value) in entries
      ensures Valid() ==> r == Find(entries, k)
    {
      r := Find(entries, k);
    }

    method Set(k: K, v: V)
      requires Valid()
      modifies this
      ensures Valid()
      ensures entries == Put(old(entries), k, v)
    {
      PutKeepsUnique(entries, k, v);
      entries := Put(entries, k, v);
    }

    method Delete(k: K) returns (existed: bool)
      requires Valid()
      modifies this
      ensures Valid()
      ensures existed <==> k in Keys(old(entries))
      ensures entries == Erase(old(entries), k)
    {
      existed := k in Keys(entries);
      EraseKeepsUnique(entries, k);
      entries := Erase(entries, k);
    }
  }
}
