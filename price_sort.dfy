/**
 * `result.sort((a, b) => a.price - b.price)` and `result.sort((a, b) => b.price - a.price)`
 * from src/app/page.js. ECMA-262 (2019 edition onward) requires `Array.prototype.sort` to be
 * stable, so for a consistent comparator its output is fully determined: ordered by the
 * comparator, with each group of equal prices in its original order. The model sorts in
 * place by insertion, and `StableSortIsUnique` shows that any stable sort gives the same array.
 */
module PriceSort {
  import opened CartStore

  datatype Direction = Ascending | Descending

  /** The comparator as a key: `a.price - b.price` orders by price, `b.price - a.price` by its negation. */
  function Key(d: Direction, p: Product): int
  {
    if d == Ascending then p.price else -p.price
  }

  predicate SortedBy(d: Direction, s: seq<Product>)
  {
    forall i, j :: 0 <= i < j < |s| ==> Key(d, s[i]) <= Key(d, s[j])
  }

  /** The products of `s` priced `v`, in their order in `s`. */
  function AtPrice(s: seq<Product>, v: int): seq<Product>
  {
    if s == [] then []
    else AtPrice(s[..|s| - 1], v) + (if s[|s| - 1].price == v then [s[|s| - 1]] else [])
  }

  /** Put `x` after every element of `s` whose key is not above its own. */
  function Insert(d: Direction, s: seq<Product>, x: Product): seq<Product>
  {
    if s == [] || Key(d, s[|s| - 1]) <= Key(d, x) then s + [x]
    else Insert(d, s[..|s| - 1], x) + [s[|s| - 1]]
  }

  /** Stable insertion sort, taking the elements left to right. */
  function Sort(d: Direction, s: seq<Product>): seq<Product>
  {
    if s == [] then [] else Insert(d, Sort(d, s[..|s| - 1]), s[|s| - 1])
  }

  // ---------------------------------------------------------------------------

  lemma {:induction false} AtPriceMembers(s: seq<Product>, v: int)
    ensures forall p :: p in AtPrice(s, v) <==> p in s && p.price == v
  {
    if s != [] {
      AtPriceMembers(s[..|s| - 1], v);
      assert s == s[..|s| - 1] + [s[|s| - 1]];
    }
  }

  lemma AtPriceAppend(s: seq<Product>, x: Product, v: int)
    ensures AtPrice(s + [x], v) == AtPrice(s, v) + (if x.price == v then [x] else [])
  {
    assert (s + [x])[..|s|] == s;
  }

  /** Inserting `x` adds exactly `x`. */
  lemma {:induction false} InsertPerm(d: Direction, s: seq<Product>, x: Product)
    ensures multiset(Insert(d, s, x)) == multiset(s) + multiset{x}
  {
    if s != [] && Key(d, s[|s| - 1]) > Key(d, x) {
      InsertPerm(d, s[..|s| - 1], x);
      assert s == s[..|s| - 1] + [s[|s| - 1]];
    }
  }

  /** Inserting `x` into a sorted sequence keeps it sorted. */
  lemma {:induction false} InsertSorted(d: Direction, s: seq<Product>, x: Product)
    requires SortedBy(d, s)
    ensures SortedBy(d, Insert(d, s, x))
  {
    if s != [] && Key(d, s[|s| - 1]) > Key(d, x) {
      var init, last := s[..|s| - 1], s[|s| - 1];
      InsertSorted(d, init, x);
      InsertPerm(d, init, x);
      var r := Insert(d, init, x);
      forall p | p in r
        ensures Key(d, p) <= Key(d, last)
      {
        assert p in multiset(r);
        if p != x {
          var k :| 0 <= k < |init| && init[k] == p;
          assert s[k] == p;
        }
      }
      var r' := r + [last];
      forall i, j | 0 <= i < j < |r'|
        ensures Key(d, r'[i]) <= Key(d, r'[j])
      {
        if j == |r| {
          assert r'[i] in r;
        }
      }
    }
  }

  /** `Insert` places `x` after the last of the other products at its price. */
  lemma {:induction false} InsertAtPrice(d: Direction, s: seq<Product>, x: Product, v: int)
    ensures AtPrice(Insert(d, s, x), v) == AtPrice(s, v) + (if x.price == v then [x] else [])
  {
    if s == [] || Key(d, s[|s| - 1]) <= Key(d, x) {
      AtPriceAppend(s, x, v);
    } else {
      var init, last := s[..|s| - 1], s[|s| - 1];
      InsertAtPrice(d, init, x, v);
      AtPriceAppend(Insert(d, init, x), last, v);
      assert last.price != x.price;
    }
  }

  /**
   * The sort's output is ordered by the comparator, is a permutation of its input, and keeps
   * the products of each price in their original relative order.
   */
  lemma {:induction false} SortCorrect(d: Direction, s: seq<Product>)
    ensures SortedBy(d, Sort(d, s))
    ensures multiset(Sort(d, s)) == multiset(s)
    ensures forall v :: AtPrice(Sort(d, s), v) == AtPrice(s, v)
  {
    if s != [] {
      var init, last := s[..|s| - 1], s[|s| - 1];
      SortCorrect(d, init);
      InsertSorted(d, Sort(d, init), last);
      InsertPerm(d, Sort(d, init), last);
      assert s == init + [last];
      forall v ensures AtPrice(Sort(d, s), v) == AtPrice(s, v) {
        InsertAtPrice(d, Sort(d, init), last, v);
      }
    }
  }

  /** A product of `u` at some price is a product of `t` when both hold the same products at each price. */
  lemma SharedMember(t: seq<Product>, u: seq<Product>, p: Product)
    requires forall v :: AtPrice(t, v) == AtPrice(u, v)
    requires p in u
    ensures p in t
  {
    AtPriceMembers(u, p.price);
    AtPriceMembers(t, p.price);
    assert AtPrice(t, p.price) == AtPrice(u, p.price);
  }

  /** Of two such sequences, sorted, the last elements have the same price. */
  lemma LastPricesAgree(d: Direction, t: seq<Product>, u: seq<Product>)
    requires SortedBy(d, t) && SortedBy(d, u) && t != [] && u != []
    requires forall v :: AtPrice(t, v) == AtPrice(u, v)
    ensures t[|t| - 1].price == u[|u| - 1].price
  {
    SharedMember(t, u, u[|u| - 1]);
    SharedMember(u, t, t[|t| - 1]);
    assert Key(d, t[|t| - 1]) == Key(d, u[|u| - 1]);
  }

  lemma AppendCancel<T>(a: seq<T>, b: seq<T>, x: T, y: T)
    requires a + [x] == b + [y]
    ensures a == b && x == y
  {
    assert |a| == |b|;
    assert x == (a + [x])[|a|];
    assert a == (a + [x])[..|a|];
  }

  /** Agreeing at every price survives dropping the same last element from both. */
  lemma DropLast(t: seq<Product>, u: seq<Product>, x: Product)
    requires forall v :: AtPrice(t + [x], v) == AtPrice(u + [x], v)
    ensures forall v :: AtPrice(t, v) == AtPrice(u, v)
  {
    forall v ensures AtPrice(t, v) == AtPrice(u, v) {
      AtPriceAppend(t, x, v);
      AtPriceAppend(u, x, v);
      assert AtPrice(t + [x], v) == AtPrice(u + [x], v);
      if x.price == v {
        AppendCancel(AtPrice(t, v), AtPrice(u, v), x, x);
      } else {
        assert AtPrice(t, v) + [] == AtPrice(t, v) && AtPrice(u, v) + [] == AtPrice(u, v);
      }
    }
  }

  /**
   * Two sequences ordered by the comparator that agree on the products at every price are
   * equal: a stable sort has only one possible result.
   */
  lemma {:induction false} StableSortIsUnique(d: Direction, t: seq<Product>, u: seq<Product>)
    requires SortedBy(d, t) && SortedBy(d, u)
    requires forall v :: AtPrice(t, v) == AtPrice(u, v)
    ensures t == u
    decreases |t|
  {
    if u != [] {
      SharedMember(t, u, u[0]);
    }
    if t != [] {
      SharedMember(u, t, t[0]);
      var t', x := t[..|t| - 1], t[|t| - 1];
      var u', y := u[..|u| - 1], u[|u| - 1];
      LastPricesAgree(d, t, u);
      assert t == t' + [x] && u == u' + [y];
      AtPriceAppend(t', x, x.price);
      AtPriceAppend(u', y, x.price);
      AppendCancel(AtPrice(t', x.price), AtPrice(u', x.price), x, y);
      DropLast(t', u', x);
      StableSortIsUnique(d, t', u');
    }
  }

  // ---------------------------------------------------------------------------

  /**
   * `Insert` on a sequence whose elements up to `j` have keys at most `x`'s and whose
   * elements from `j` on have keys above it puts `x` at position `j`.
   */
  lemma {:induction false} InsertAt(d: Direction, s: seq<Product>, x: Product, j: int)
    requires 0 <= j <= |s|
    requires j > 0 ==> Key(d, s[j - 1]) <= Key(d, x)
    requires forall k :: j <= k < |s| ==> Key(d, s[k]) > Key(d, x)
    ensures Insert(d, s, x) == s[..j] + [x] + s[j..]
    decreases |s|
  {
    if j < |s| {
      var init := s[..|s| - 1];
      InsertAt(d, init, x, j);
      assert s[..j] + [x] + s[j..] == init[..j] + [x] + init[j..] + [s[|s| - 1]];
    }
  }

  /** Sorting one more element of `s` is inserting it into the sorted prefix. */
  lemma SortStep(d: Direction, s: seq<Product>, i: int)
    requires 0 <= i < |s|
    ensures Sort(d, s[..i + 1]) == Insert(d, Sort(d, s[..i]), s[i])
  {
    assert s[..i + 1][..i] == s[..i];
  }

  /** One step of the sort: shift the sorted prefix `a[..i]` to make room for `a[i]`. */
  method InsertNext(a: array<Product>, i: int, d: Direction)
    requires 0 <= i < a.Length
    modifies a
    ensures a[..i + 1] == Insert(d, old(a[..i]), old(a[i]))
    ensures a[i + 1..] == old(a[i + 1..])
  {
    var x := a[i];
    ghost var pre := a[..i];
    var j := i;
    while j > 0 && Key(d, a[j - 1]) > Key(d, x)
      invariant 0 <= j <= i
      invariant forall k :: 0 <= k < j ==> a[k] == pre[k]
      invariant forall k :: j < k <= i ==> a[k] == pre[k - 1]
      invariant forall k :: j <= k < i ==> Key(d, pre[k]) > Key(d, x)
      invariant a[i + 1..] == old(a[i + 1..])
    {
      a[j] := a[j - 1];
      j := j - 1;
    }
    a[j] := x;
    InsertAt(d, pre, x, j);
    assert a[..i + 1] == pre[..j] + [x] + pre[j..];
  }

  /** `array.sort(comparator)`: sorts `a` in place, stably. */
  method SortInPlace(a: array<Product>, d: Direction)
    modifies a
    ensures a[..] == Sort(d, old(a[..]))
  {
    ghost var input := a[..];
    var i := 0;
    while i < a.Length
      invariant 0 <= i <= a.Length
      invariant a[..i] == Sort(d, input[..i])
      invariant a[i..] == input[i..]
    {
      assert a[i] == input[i];
      InsertNext(a, i, d);
      SortStep(d, input, i);
      i := i + 1;
    }
    assert input[..a.Length] == input;
  }
}
