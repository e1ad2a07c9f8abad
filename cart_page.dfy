/**
 * The cart page of src/app/cart/page.js: the running total over `cartArray` and the
 * "-", "+" and "Remove" controls on each entry.
 */
module CartPage {
  import opened OrderedMaps
  import opened CartStore

  /** One entry's contribution to the total, `item.price * item.quantity`. */
  function LineTotal(e: Entry): int
  {
    e.price * e.quantity
  }

  /** The sum of the line totals, as the page accumulates it from the first entry on. */
  function Total(items: seq<Entry>): int
  {
    if items == [] then 0 else Total(items[..|items| - 1]) + LineTotal(items[|items| - 1])
  }

  /** What the page shows: the empty message, or the entries with the total under them. */
  datatype CartView = EmptyMessage | Listing(items: seq<Entry>, total: int)

  /** The page's render: `total` starts at 0 and the map over `cartArray` adds each line. */
  method RenderCart(cartArray: seq<Entry>) returns (view: CartView)
    ensures view.EmptyMessage? <==> cartArray == []
    ensures view.Listing? ==> view.items == cartArray && view.total == Total(cartArray)
  {
    var total := 0;
    if |cartArray| == 0 {
      view := EmptyMessage;
    } else {
      for i := 0 to |cartArray|
        invariant total == Total(cartArray[..i])
      {
        var item := cartArray[i];
        total := total + item.price * item.quantity;
        assert cartArray[..i + 1][..i] == cartArray[..i];
      }
      assert cartArray[..|cartArray|] == cartArray;
      view := Listing(cartArray, total);
    }
  }

  /** The page over a store: it renders the store's `cartArray`, so the total is taken over the map's entries. */
  method RenderStore(store: CartProvider) returns (view: CartView)
    ensures view.EmptyMessage? <==> store.cartMap.entries == []
    ensures view.Listing? ==> |view.items| == |store.cartMap.entries|
    ensures view.Listing? ==> forall i :: 0 <= i < |view.items| ==> view.items[i] == store.cartMap.entries[i].1
    ensures view.Listing? ==> view.total == Total(Values(store.cartMap.entries))
  {
    view := RenderCart(store.CartArray());
  }

  // ---------------------------------------------------------------------------
  // The total under the cart commands

  lemma {:induction false} TotalConcat(a: seq<Entry>, b: seq<Entry>)
    ensures Total(a + b) == Total(a) + Total(b)
    decreases |b|
  {
    if b != [] {
      var b' := b[..|b| - 1];
      TotalConcat(a, b');
      assert (a + b)[..|a + b| - 1] == a + b';
      assert Total(a + b) == Total(a + b') + LineTotal(b[|b| - 1]);
      assert Total(b) == Total(b') + LineTotal(b[|b| - 1]);
    } else {
      assert a + b == a;
    }
  }

  lemma TotalSplit(s: seq<Entry>, i: int)
    requires 0 <= i < |s|
    ensures Total(s) == Total(s[..i]) + LineTotal(s[i]) + Total(s[i + 1..])
  {
    assert s == s[..i] + [s[i]] + s[i + 1..];
    TotalConcat(s[..i] + [s[i]], s[i + 1..]);
    TotalConcat(s[..i], [s[i]]);
  }

  /** With prices and quantities not negative, neither is the total. */
  lemma {:induction false} TotalNonNegative(items: seq<Entry>)
    requires forall k :: 0 <= k < |items| ==> items[k].price >= 0 && items[k].quantity >= 0
    ensures Total(items) >= 0
  {
    if items != [] {
      TotalNonNegative(items[..|items| - 1]);
      var last := items[|items| - 1];
      assert LineTotal(last) >= 0 by {
        assert last.price >= 0 && last.quantity >= 0;
      }
    }
  }

  /** Setting the quantity of the entry at position `i` to `q >= 1` changes the total by its price times the difference. */
  lemma TotalAfterUpdate(m: Cart, i: int, q: int)
    requires UniqueKeys(m) && 0 <= i < |m| && q >= 1
    ensures Total(Values(Updated(m, m[i].0, q)))
      == Total(Values(m)) + m[i].1.price * q - m[i].1.price * m[i].1.quantity
  {
    var e := m[i].1;
    UpdatedEntry(m, m[i].0, q);
    var r := m[i := (m[i].0, e.(quantity := q))];
    assert Values(r) == Values(m)[i := e.(quantity := q)];
    TotalSplit(Values(m), i);
    TotalSplit(Values(r), i);
    assert Values(r)[..i] == Values(m)[..i];
    assert Values(r)[i + 1..] == Values(m)[i + 1..];
  }

  /** Removing the entry at position `i` takes its line out of the total. */
  lemma TotalAfterRemove(m: Cart, i: int)
    requires UniqueKeys(m) && 0 <= i < |m|
    ensures Total(Values(Removed(m, m[i].0))) == Total(Values(m)) - LineTotal(m[i].1)
  {
    RemovedEntry(m, m[i].0);
    var r := m[..i] + m[i + 1..];
    assert Values(r) == Values(m)[..i] + Values(m)[i + 1..];
    TotalSplit(Values(m), i);
    TotalConcat(Values(m)[..i], Values(m)[i + 1..]);
  }

  /** Adding a product that is not in the cart adds its price once to the total. */
  lemma TotalAfterAdd(m: Cart, p: Product)
    requires p.id !in Keys(m)
    ensures Total(Values(Added(m, p))) == Total(Values(m)) + p.price
  {
    PutAbsent(m, p.id, WithQuantity(p, 1));
    assert Values(m + [(p.id, WithQuantity(p, 1))]) == Values(m) + [WithQuantity(p, 1)];
    assert (Values(m) + [WithQuantity(p, 1)])[..|m|] == Values(m);
  }

  /** An empty cart, one product at 10.00 added, its quantity set to 3: the page shows 30.00. */
  lemma ExampleTotal()
    ensures var p := Product(1, "Shirt", 1000, "");
      var m := Updated(Added([], p), 1, 3);
      Total(Values(m)) == 3000
  {
    var p := Product(1, "Shirt", 1000, "");
    var m := Updated(Added([], p), 1, 3);
    assert Added([], p) == [(1, WithQuantity(p, 1))];
    assert m == [(1, WithQuantity(p, 3))];
    assert Values(m) == [WithQuantity(p, 3)];
  }

  // ---------------------------------------------------------------------------
  // Entry controls

  datatype CartButton = Decrement | Increment | RemoveButton

  /** `Math.max(q - 1, 1)` */
  function ClampedDecrement(q: int): int
  {
    if q - 1 > 1 then q - 1 else 1
  }

  /** The command each control on an entry's row issues. */
  function CartCommand(item: Entry, b: CartButton): Command
  {
    match b
    case Decrement => UpdateQuantity(item.id, ClampedDecrement(item.quantity))
    case Increment => UpdateQuantity(item.id, item.quantity + 1)
    case RemoveButton => RemoveFromCart(item.id)
  }

  /**
   * "-" on the entry at position `i` never removes it: the ids stay the same, its quantity
   * goes one down but not below 1, and at quantity 1 the cart is left as it was.
   */
  lemma DecrementNeverRemoves(m: Cart, i: int)
    requires UniqueKeys(m) && QuantitiesPositive(m) && IdsMatch(m) && 0 <= i < |m|
    ensures Keys(Apply(m, CartCommand(m[i].1, Decrement))) == Keys(m)
    ensures Apply(m, CartCommand(m[i].1, Decrement))
      == m[i := (m[i].0, m[i].1.(quantity := ClampedDecrement(m[i].1.quantity)))]
    ensures QuantitiesPositive(Apply(m, CartCommand(m[i].1, Decrement)))
    ensures m[i].1.quantity == 1 ==> Apply(m, CartCommand(m[i].1, Decrement)) == m
  {
    var q := ClampedDecrement(m[i].1.quantity);
    UpdatedEntry(m, m[i].0, q);
    ApplyKeepsInvariant(m, CartCommand(m[i].1, Decrement));
    var r := m[i := (m[i].0, m[i].1.(quantity := q))];
    assert Keys(r) == Keys(m);
  }

  /** "+" on the entry at position `i` raises its quantity by one where it stands. */
  lemma IncrementEntry(m: Cart, i: int)
    requires UniqueKeys(m) && IdsMatch(m) && QuantitiesPositive(m) && 0 <= i < |m|
    ensures Apply(m, CartCommand(m[i].1, Increment))
      == m[i := (m[i].0, m[i].1.(quantity := m[i].1.quantity + 1))]
  {
    UpdatedEntry(m, m[i].0, m[i].1.quantity + 1);
  }

  /** "Remove" on the entry at position `i` removes exactly that entry. */
  lemma RemoveButtonEntry(m: Cart, i: int)
    requires UniqueKeys(m) && IdsMatch(m) && 0 <= i < |m|
    ensures Apply(m, CartCommand(m[i].1, RemoveButton)) == m[..i] + m[i + 1..]
  {
    RemovedEntry(m, m[i].0);
  }
}
