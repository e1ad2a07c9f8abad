/**
 * The cart store of src/app/hooks/cart.js: a `Map` from product id to cart entry, three
 * commands that replace it with an updated copy, and the load and save steps that keep it
 * in the "cart" slot of local storage.
 */
module CartStore {
  import opened Wrappers
  import opened OrderedMaps

  /** A catalog product; prices are whole cents. */
  datatype Product = Product(id: int, title: string, price: int, image: string)

  /** A cart entry: the product's fields spread out, plus a quantity. */
  datatype Entry = Entry(id: int, title: string, price: int, image: string, quantity: int)

  /** The cart's `Map` as its (id, entry) pairs in iteration order. */
  type Cart = seq<(int, Entry)>

  /** `{ ...product, quantity: q }` */
  function WithQuantity(p: Product, q: int): Entry
  {
    Entry(p.id, p.title, p.price, p.image, q)
  }

  /** The store invariant the commands keep: no entry has a quantity below one. */
  predicate QuantitiesPositive(m: Cart)
  {
    forall i :: 0 <= i < |m| ==> m[i].1.quantity >= 1
  }

  /** Each entry sits under its own product id, as `set(product.id, { ...product, ... })` puts it. */
  predicate IdsMatch(m: Cart)
  {
    forall i :: 0 <= i < |m| ==> m[i].1.id == m[i].0
  }

  // ---------------------------------------------------------------------------
  // The three commands, as the cart each one returns from `prev`

  /** `addToCart(product)`: set the product's id to a fresh entry of quantity 1. */
  function Added(prev: Cart, p: Product): Cart
  {
    Put(prev, p.id, WithQuantity(p, 1))
  }

  /** `removeFromCart(id)` */
  function Removed(prev: Cart, id: int): Cart
  {
    Erase(prev, id)
  }

  /** `updateQuantity(id, quantity)` */
  function Updated(prev: Cart, id: int, quantity: int): Cart
  {
    match Find(prev, id)
    case None => prev
    case Some(e) => if quantity <= 0 then Erase(prev, id) else Put(prev, id, e.(quantity := quantity))
  }

  /** A command the views issue to the store. */
  datatype Command =
    | AddToCart(product: Product)
    | RemoveFromCart(id: int)
    | UpdateQuantity(id: int, quantity: int)

  function Apply(prev: Cart, c: Command): Cart
  {
    match c
    case AddToCart(p) => Added(prev, p)
    case RemoveFromCart(id) => Removed(prev, id)
    case UpdateQuantity(id, q) => Updated(prev, id, q)
  }

  function ApplyAll(prev: Cart, cs: seq<Command>): Cart
    decreases |cs|
  {
    if cs == [] then prev else ApplyAll(Apply(prev, cs[0]), cs[1..])
  }

  // ---------------------------------------------------------------------------
  // Persistence

  /** The content of the "cart" storage slot: what `JSON.stringify` wrote, or text that does not parse into pairs. */
  datatype Stored = Serialized(pairs: seq<(int, Entry)>) | Unparsable(text: string)

  /** What the load step reports; `ParseFailed` is the case it logs. */
  datatype LoadOutcome = NothingStored | Restored | ParseFailed

  /** The slot after the save step: the entries in iteration order, or no slot at all for an empty cart. */
  function SaveSlot(m: Cart): Option<Stored>
  {
    if |m| > 0 then Some(Serialized(m)) else None
  }

  /** The load step's outcome for a given slot. */
  function LoadResult(slot: Option<Stored>): LoadOutcome
  {
    match slot
    case None => NothingStored
    case Some(Unparsable(text)) => if text == "" then NothingStored else ParseFailed
    case Some(Serialized(_)) => Restored
  }

  /** The cart after the load step, starting from `current`. */
  function Loaded(current: Cart, slot: Option<Stored>): Cart
  {
    match slot
    case Some(Serialized(pairs)) => FromPairs(pairs)
    case _ => current
  }

  // ---------------------------------------------------------------------------
  // Properties of the commands

  /**
   * `addToCart(p)` leaves exactly one entry under `p.id`, holding `p`'s fields and quantity 1,
   * even when that id was already in the cart with another quantity; the entry keeps its
   * place if it was there and is appended otherwise, and no other id is affected.
   */
  lemma AddedEntry(m: Cart, p: Product)
    requires UniqueKeys(m)
    ensures UniqueKeys(Added(m, p))
    ensures Find(Added(m, p), p.id) == Some(WithQuantity(p, 1))
    ensures forall x :: x != p.id ==> Find(Added(m, p), x) == Find(m, x)
    ensures Keys(Added(m, p)) == if p.id in Keys(m) then Keys(m) else Keys(m) + [p.id]
  {
    PutKeepsUnique(m, p.id, WithQuantity(p, 1));
    PutKeys(m, p.id, WithQuantity(p, 1));
    forall x {
      FindAfterPut(m, p.id, WithQuantity(p, 1), x);
    }
  }

  /** Adding the same product twice is the same as adding it once. */
  lemma AddedIdempotent(m: Cart, p: Product)
    ensures Added(Added(m, p), p) == Added(m, p)
  {
    PutPut(m, p.id, WithQuantity(p, 1), WithQuantity(p, 1));
  }

  /**
   * After `removeFromCart(id)` the id is absent and the other entries stay, in order;
   * removing an absent id changes nothing.
   */
  lemma RemovedEntry(m: Cart, id: int)
    requires UniqueKeys(m)
    ensures UniqueKeys(Removed(m, id))
    ensures id !in Keys(Removed(m, id))
    ensures forall x :: x != id ==> Find(Removed(m, id), x) == Find(m, x)
    ensures forall i :: 0 <= i < |m| && m[i].0 == id ==> Removed(m, id) == m[..i] + m[i + 1..]
    ensures id !in Keys(m) ==> Removed(m, id) == m
  {
    EraseKeepsUnique(m, id);
    forall x {
      FindAfterErase(m, id, x);
    }
    forall i | 0 <= i < |m| && m[i].0 == id {
      EraseAt(m, i);
    }
    if id !in Keys(m) {
      EraseAbsent(m, id);
    }
  }

  /**
   * `updateQuantity(id, q)` leaves the cart alone when `id` is absent, equals
   * `removeFromCart(id)` when `q <= 0`, and otherwise sets that entry's quantity to `q`
   * where it stands, keeping its other fields.
   */
  lemma UpdatedEntry(m: Cart, id: int, q: int)
    requires UniqueKeys(m)
    ensures UniqueKeys(Updated(m, id, q))
    ensures id !in Keys(m) ==> Updated(m, id, q) == m
    ensures q <= 0 ==> Updated(m, id, q) == Removed(m, id)
    ensures q >= 1 ==> forall i :: 0 <= i < |m| && m[i].0 == id ==>
      Updated(m, id, q) == m[i := (id, m[i].1.(quantity := q))]
  {
    EraseKeepsUnique(m, id);
    if id !in Keys(m) {
      EraseAbsent(m, id);
      assert forall i :: 0 <= i < |m| ==> Keys(m)[i] == m[i].0;
    } else {
      var e := Find(m, id).value;
      PutKeepsUnique(m, id, e.(quantity := q));
      if q >= 1 {
        forall i | 0 <= i < |m| && m[i].0 == id
          ensures Updated(m, id, q) == m[i := (id, m[i].1.(quantity := q))]
        {
          FindAt(m, i);
          PutAt(m, i, e.(quantity := q));
        }
      }
    }
  }

  /** A cart made of pairs of a well-formed cart is well formed. */
  lemma PositiveFromPairs(r: Cart, m: Cart)
    requires QuantitiesPositive(m) && IdsMatch(m)
    requires forall p :: p in r ==> p in m
    ensures QuantitiesPositive(r) && IdsMatch(r)
  {
    forall i | 0 <= i < |r|
      ensures r[i].1.quantity >= 1 && r[i].1.id == r[i].0
    {
      assert r[i] in m;
    }
  }

  /** Setting an entry whose quantity is at least one keeps every quantity at least one. */
  lemma PutPositive(m: Cart, id: int, e: Entry)
    requires QuantitiesPositive(m) && IdsMatch(m)
    requires e.quantity >= 1 && e.id == id
    ensures QuantitiesPositive(Put(m, id, e)) && IdsMatch(Put(m, id, e))
  {
    var r := Put(m, id, e);
    PutPairs(m, id, e);
    forall i | 0 <= i < |r|
      ensures r[i].1.quantity >= 1 && r[i].1.id == r[i].0
    {
      assert r[i] in r;
    }
  }

  /** Every command keeps the keys unique, every quantity at least one and every entry under its own id. */
  lemma ApplyKeepsInvariant(m: Cart, c: Command)
    requires UniqueKeys(m) && QuantitiesPositive(m) && IdsMatch(m)
    ensures UniqueKeys(Apply(m, c)) && QuantitiesPositive(Apply(m, c)) && IdsMatch(Apply(m, c))
  {
    match c
    case AddToCart(p) =>
      PutKeepsUnique(m, p.id, WithQuantity(p, 1));
      PutPositive(m, p.id, WithQuantity(p, 1));
    case RemoveFromCart(id) =>
      EraseKeepsUnique(m, id);
      ErasePairs(m, id);
      PositiveFromPairs(Erase(m, id), m);
    case UpdateQuantity(id, q) =>
      EraseKeepsUnique(m, id);
      ErasePairs(m, id);
      PositiveFromPairs(Erase(m, id), m);
      if Find(m, id).Some? {
        var e := Find(m, id).value;
        assert (id, e) in m;
        PutKeepsUnique(m, id, e.(quantity := q));
        if q >= 1 {
          PutPositive(m, id, e.(quantity := q));
        }
      }
  }

  /** So does every sequence of commands. */
  lemma {:induction false} ApplyAllKeepsInvariant(m: Cart, cs: seq<Command>)
    requires UniqueKeys(m) && QuantitiesPositive(m) && IdsMatch(m)
    ensures UniqueKeys(ApplyAll(m, cs)) && QuantitiesPositive(ApplyAll(m, cs)) && IdsMatch(ApplyAll(m, cs))
    decreases |cs|
  {
    if cs != [] {
      ApplyKeepsInvariant(m, cs[0]);
      ApplyAllKeepsInvariant(Apply(m, cs[0]), cs[1..]);
    }
  }

  /**
   * Loading the slot the save step wrote reconstructs the same ordered map; for an empty
   * cart there is no slot, and loading leaves the cart empty.
   */
  lemma SaveLoadRoundTrip(m: Cart)
    requires UniqueKeys(m)
    ensures LoadResult(SaveSlot(m)) == if m == [] then NothingStored else Restored
    ensures Loaded([], SaveSlot(m)) == m
  {
    if m != [] {
      FromPairsOfMap(m);
    }
  }

  // ---------------------------------------------------------------------------
  // The store object

  class CartProvider {
    /** The `cartMap` state: the current `Map` object. */
    var cartMap: JsMap<int, Entry>
    /** The "cart" slot of local storage. */
    var storage: Option<Stored>

    ghost predicate Valid()
      reads this, cartMap
    {
      cartMap.Valid()
    }

    /** The initial state: an empty `Map`, with whatever the storage slot holds. */
    constructor (slot: Option<Stored>)
      ensures Valid() && fresh(cartMap)
      ensures cartMap.entries == [] && storage == slot
    {
      cartMap := new JsMap([]);
      storage := slot;
    }

    /** `cartArray`: the entries in iteration order. */
    function CartArray(): (items: seq<Entry>)
      reads this, cartMap
      ensures |items| == |cartMap.entries|
      ensures forall i :: 0 <= i < |items| ==> items[i] == cartMap.entries[i].1
    {
      Values(cartMap.entries)
    }

    method AddToCart(product: Product)
      requires Valid()
      modifies this
      ensures Valid() && fresh(cartMap) && unchanged(old(cartMap))
      ensures cartMap.entries == Added(old(cartMap.entries), product)
      ensures storage == old(storage)
    {
      var newCart := new JsMap(cartMap.entries);
      newCart.Set(product.id, WithQuantity(product, 1));
      cartMap := newCart;
    }

    method RemoveFromCart(id: int)
      requires Valid()
      modifies this
      ensures Valid() && fresh(cartMap) && unchanged(old(cartMap))
      ensures cartMap.entries == Removed(old(cartMap.entries), id)
      ensures storage == old(storage)
    {
      var newCart := new JsMap(cartMap.entries);
      var _ := newCart.Delete(id);
      cartMap := newCart;
    }

    method UpdateQuantity(id: int, quantity: int)
      requires Valid()
      modifies this
      ensures Valid() && fresh(cartMap) && unchanged(old(cartMap))
      ensures cartMap.entries == Updated(old(cartMap.entries), id, quantity)
      ensures storage == old(storage)
    {
      var newCart := new JsMap(cartMap.entries);
      var present := newCart.Has(id);
      if present {
        if quantity <= 0 {
          var _ := newCart.Delete(id);
        } else {
          var product := newCart.Get(id);
          newCart.Set(id, product.value.(quantity := quantity));
        }
      }
      cartMap := newCart;
    }

    /** The save step, run whenever `cartMap` changes. */
    method SaveEffect()
      requires Valid()
      modifies this`storage
      ensures storage == SaveSlot(cartMap.entries)
    {
      if cartMap.Size() > 0 {
        storage := Some(Serialized(cartMap.entries));
      } else {
        storage := None;
      }
    }

    /** The load step, run once at start-up. */
    method LoadEffect() returns (outcome: LoadOutcome)
      requires Valid()
      modifies this`cartMap
      ensures Valid()
      ensures outcome == LoadResult(storage)
      ensures cartMap.entries == Loaded(old(cartMap.entries), storage)
      ensures outcome == Restored ==> fresh(cartMap)
      ensures outcome != Restored ==> cartMap == old(cartMap)
    {
      match storage {
        case None =>
          outcome := NothingStored;
        case Some(Unparsable(text)) =>
          outcome := if text == "" then NothingStored else ParseFailed;
        case Some(Serialized(pairs)) =>
          cartMap := new JsMap(pairs);
          outcome := Restored;
      }
    }
  }

  /**
   * A reload: the save step writes the slot, a new store starts empty over that slot, and
   * its load step brings back the same entries in the same order.
   */
  method Reload(before: CartProvider) returns (after: CartProvider)
    requires before.Valid()
    modifies before`storage
    ensures after.Valid()
    ensures after.cartMap.entries == before.cartMap.entries
    ensures after.storage == before.storage == SaveSlot(before.cartMap.entries)
  {
    before.SaveEffect();
    after := new CartProvider(before.storage);
    var _ := after.LoadEffect();
    SaveLoadRoundTrip(before.cartMap.entries);
  }
}
