# Storefront cart and catalog logic, in Dafny

A verified model of the plain logic of a small storefront web client (Next.js/React). It covers three parts:

- **The cart store** (`src/app/hooks/cart.js`). The cart is a JavaScript `Map` from product id to cart entry. An entry is the product's fields plus a `quantity`. Three commands, `addToCart`, `removeFromCart` and `updateQuantity`, each replace the map with an updated copy of the previous one. A save step writes the entries to the "cart" slot of local storage, or deletes the slot when the cart is empty. A load step at start-up parses that slot back into a map.
- **The catalog page** (`src/app/page.js`). The page derives the product list it shows: a case-insensitive title search, then an optional stable sort by price, ascending or descending. It also has a three-state sort toggle and the add/"-"/"+" buttons on each product card.
- **The cart page** (`src/app/cart/page.js`). The page accumulates a running total over the cart entries and has "-" (clamped at 1), "+" and "Remove" buttons on each entry.

Files and modules:

- `wrappers.dfy` (`Wrappers`): `Option`, standing for `undefined` and for an absent storage slot.
- `ordered_map.dfy` (`OrderedMaps`): a JavaScript `Map` modelled as its (key, value) pairs in iteration order, with unique keys. `Put` is `set`: an existing key is overwritten where it stands and a new key is appended. `Erase` is `delete`, and `FromPairs` is `new Map(pairs)`. The class `JsMap` is the mutable `Map` object, whose `Set`/`Delete` update it in place.
- `cart_store.dfy` (`CartStore`): products, entries, the three commands as functions of the previous cart, the storage slot, and the class `CartProvider`. That class has the `cartMap` and `storage` fields and the command, save and load methods.
- `price_sort.dfy` (`PriceSort`): `Array.prototype.sort` with the two price comparators. The array is sorted in place by a stable insertion sort. A uniqueness lemma shows that every stable sort gives the same result.
- `catalog.dfy` (`Catalog`): the search filter, `filteredProducts`, `toggleSort` and the product-card buttons.
- `cart_page.dfy` (`CartPage`): the total, the empty-cart view and the entry buttons.

Prices are whole cents (`int`), so the comparator `a.price - b.price` and the total `price * quantity` are exact.

Two behaviours of the code are worth noting:

- `addToCart` calls `set(product.id, { ...product, quantity: 1 })` unconditionally (src/app/hooks/cart.js:38). Adding an id that is already in the cart therefore resets its quantity to 1 while keeping its position. It is not a no-op. `CartStore.AddedEntry` states this. `Catalog.GridAddOnlyWhenAbsent` shows that the catalog page only offers "Add to Cart" for a product that is not in the cart (src/app/page.js:153-159), so from the UI the reset never happens.
- On a parse failure the load step keeps the current cart; it does not clear it (src/app/hooks/cart.js:18-20). At start-up the current cart is the initial empty map, so the observable result is the same: an empty cart.

## Model

| member | source | states |
|---|---|---|
| OrderedMaps.Find | src/app/hooks/cart.js:58 | `get` returns a value exactly when the key is in the map, and that value is paired with the key in the map |
| OrderedMaps.Put | src/app/hooks/cart.js:38 | `set` grows the map by one pair for a new key and keeps its size for an existing key |
| OrderedMaps.PutKeys | src/app/hooks/cart.js:38 | after `set`, an existing key keeps its place in iteration order and a new key comes last |
| OrderedMaps.PutKeepsUnique | src/app/hooks/cart.js:59 | `set` keeps keys unique |
| OrderedMaps.Erase | src/app/hooks/cart.js:46 | after `delete` the key is absent and the map is no larger |
| OrderedMaps.EraseKeepsUnique | src/app/hooks/cart.js:56 | `delete` keeps keys unique and removes exactly that key from the key set |
| OrderedMaps.FindAfterPut | src/app/hooks/cart.js:59 | after `set(k, v)`, `get(k)` is `v` and every other key's lookup is unchanged |
| OrderedMaps.FindAfterErase | src/app/hooks/cart.js:46 | after `delete(k)`, `get(k)` is undefined and every other key's lookup is unchanged |
| OrderedMaps.FindAt | src/app/hooks/cart.js:58 | in a map, `get` of the key at position i returns the value at position i |
| OrderedMaps.PutAt | src/app/hooks/cart.js:59 | `set` on the key at position i replaces that pair in place; nothing else moves |
| OrderedMaps.PutAbsent | src/app/hooks/cart.js:38 | `set` on a new key appends its pair at the end |
| OrderedMaps.PutPut | src/app/hooks/cart.js:38 | a second `set` of the same key overrides the first and nothing else |
| OrderedMaps.EraseAt | src/app/hooks/cart.js:46 | `delete` of the key at position i removes exactly that pair and keeps the others in order |
| OrderedMaps.EraseAbsent | src/app/hooks/cart.js:46 | `delete` of an absent key leaves the map unchanged |
| OrderedMaps.PutPairs | src/app/hooks/cart.js:59 | every pair after `set` is the new pair or an old one |
| OrderedMaps.ErasePairs | src/app/hooks/cart.js:56 | every pair after `delete` is an old one |
| OrderedMaps.FromPairs | src/app/hooks/cart.js:17 | `new Map(pairs)` always has unique keys |
| OrderedMaps.FromPairsOfMap | src/app/hooks/cart.js:37 | `new Map(prev)` on the pairs of a map rebuilds the same pairs in the same order |
| OrderedMaps.SizeIsDistinctKeys | src/app/hooks/cart.js:9 | `cartArray` has one value per pair, and its length (the header badge count) is the number of distinct ids |
| OrderedMaps.JsMap.constructor | src/app/hooks/cart.js:37 | `new Map(pairs)` holds `FromPairs(pairs)`, and a copy of a map holds the same pairs |
| OrderedMaps.JsMap.Has | src/app/hooks/cart.js:54 | `has` is true exactly when the key is present |
| OrderedMaps.JsMap.Get | src/app/hooks/cart.js:58 | `get` returns the value stored under the key, or undefined when it is absent |
| OrderedMaps.JsMap.Set | src/app/hooks/cart.js:59 | `set` updates the object in place to `Put` of its old pairs and keeps keys unique |
| OrderedMaps.JsMap.Delete | src/app/hooks/cart.js:56 | `delete` updates the object in place to `Erase` of its old pairs and reports whether the key was present |
| CartStore.AddedEntry | src/app/hooks/cart.js:35-41 | `Added`, the `addToCart` updater as a function of `prev`: `addToCart(p)` leaves exactly one entry under `p.id`, holding `p`'s fields and quantity 1, even if the id was present with another quantity; the entry keeps its place or is appended; other ids are unaffected |
| CartStore.AddedIdempotent | src/app/hooks/cart.js:35-41 | adding the same product twice equals adding it once |
| CartStore.RemovedEntry | src/app/hooks/cart.js:43-49 | `Removed`, the `removeFromCart` updater: after `removeFromCart(id)` the id is absent and the other entries keep their values and order; removing an absent id changes nothing |
| CartStore.UpdatedEntry | src/app/hooks/cart.js:51-64 | `Updated`, the `updateQuantity` updater: `updateQuantity(id, q)` leaves the cart unchanged when the id is absent; for q ≤ 0 it equals `removeFromCart(id)`; for q ≥ 1 it sets only that entry's quantity, in place, keeping its other fields |
| CartStore.PositiveFromPairs | src/app/hooks/cart.js:45-46 | a cart made only of pairs taken from a well-formed cart is well formed |
| CartStore.PutPositive | src/app/hooks/cart.js:58-59 | setting an entry of quantity ≥ 1 under its own id keeps every quantity ≥ 1 and every entry under its own id |
| CartStore.ApplyKeepsInvariant | src/app/hooks/cart.js:35-64 | each of the three commands keeps keys unique, every quantity ≥ 1 and every entry under its own id |
| CartStore.ApplyAllKeepsInvariant | src/app/hooks/cart.js:35-64 | so does every sequence of commands |
| CartStore.SaveLoadRoundTrip | src/app/hooks/cart.js:12-33 | `SaveSlot` (the save step's slot) and `Loaded` (the load step's cart): loading the slot the save step wrote rebuilds the same ordered map; an empty cart leaves no slot, and loading then yields an empty cart |
| CartStore.CartProvider.constructor | src/app/hooks/cart.js:8 | the store starts with a fresh empty `Map` over the existing storage slot |
| CartStore.CartProvider.CartArray | src/app/hooks/cart.js:9 | `cartArray` lists the map's values, one per pair, in iteration order |
| CartStore.CartProvider.AddToCart | src/app/hooks/cart.js:35-41 | `cartMap` becomes a fresh map holding `Added` of the previous one; the previous map object is unchanged; storage is untouched |
| CartStore.CartProvider.RemoveFromCart | src/app/hooks/cart.js:43-49 | `cartMap` becomes a fresh map holding `Removed` of the previous one; the previous map object is unchanged |
| CartStore.CartProvider.UpdateQuantity | src/app/hooks/cart.js:51-64 | `cartMap` becomes a fresh map holding `Updated` of the previous one; the previous map object is unchanged |
| CartStore.CartProvider.SaveEffect | src/app/hooks/cart.js:24-33 | the slot holds the entries in iteration order when the cart is non-empty and is removed when it is empty |
| CartStore.CartProvider.LoadEffect | src/app/hooks/cart.js:12-22 | an absent or empty slot loads nothing; an unparsable slot is reported as a failure and the cart is kept; a serialized slot becomes a fresh `new Map(pairs)` |
| CartStore.Reload | src/app/hooks/cart.js:12-33 | saving and then starting a new store over that slot brings back the same entries in the same order |
| PriceSort.AtPriceMembers | src/app/page.js:46-50 | the products at a price are exactly the products of the list with that price |
| PriceSort.InsertPerm | src/app/page.js:47 | one insertion step adds exactly the inserted product |
| PriceSort.InsertSorted | src/app/page.js:47 | one insertion step keeps the list ordered by the comparator |
| PriceSort.InsertAtPrice | src/app/page.js:47 | the inserted product goes after the other products at its price |
| PriceSort.SortCorrect | src/app/page.js:46-50 | the sort's output is ordered by the comparator, is a permutation of the input, and keeps the products of each price in their original relative order (stability) |
| PriceSort.SharedMember | src/app/page.js:46-50 | lists that agree on the products at every price have the same members |
| PriceSort.LastPricesAgree | src/app/page.js:46-50 | two such lists, both sorted, end in products of the same price |
| PriceSort.StableSortIsUnique | src/app/page.js:46-50 | any two lists sorted by the comparator that agree on the products at every price are equal, so every stable sort gives this result |
| PriceSort.InsertNext | src/app/page.js:47 | one pass of the in-place sort: shifting the sorted prefix inserts the next element as `Insert` does |
| PriceSort.SortInPlace | src/app/page.js:47-49 | `result.sort(comparator)` leaves the array equal to the stable sort of its old contents |
| Catalog.KeepMatchingCorrect | src/app/page.js:40-44 | `KeepMatching`, the `filter` call: with a non-empty search, the result is an order-preserving subsequence of the products; each element matches; each matching product occurs as often as in the catalog |
| Catalog.FilteredProducts | src/app/page.js:37-53 | with an empty search and no sort the products come back unchanged; with no sort the filtered order is kept; with any sort the result is a permutation of the filtered list, equal prices keep their order, ascending is non-decreasing and descending non-increasing by price; the products are never changed |
| Catalog.ExampleSortAscending | src/app/page.js:37-53 | [Shirt 20.00, Shoe 10.00] sorted ascending is [Shoe, Shirt] |
| Catalog.ExampleSearchMatches | src/app/page.js:37-53 | on that catalog the search "sh" keeps both products, in order |
| Catalog.ExampleSearchEmpty | src/app/page.js:37-53 | on that catalog the search "zzz" keeps neither product |
| Catalog.CatalogPage.constructor | src/app/page.js:13 | the sort state starts as null |
| Catalog.CatalogPage.ToggleSort | src/app/page.js:55-59 | `toggleSort` moves the sort state to its successor: null to "asc", "asc" to "desc", "desc" to null |
| Catalog.ToggleCycles | src/app/page.js:55-59 | `NextSort`, the toggle's successor state: the toggle always changes the state and three toggles return to the start |
| Catalog.GridAddOnlyWhenAbsent | src/app/page.js:153-159 | `GridCommand`, the command a card button sends: "Add to Cart" is shown exactly when the product is not in the cart, and then it appends a new entry with quantity 1 |
| Catalog.GridMinus | src/app/page.js:135-142 | "-" requests quantity − 1: at quantity 1 it removes the entry, otherwise it lowers the quantity in place |
| Catalog.GridPlus | src/app/page.js:144-151 | "+" raises the entry's quantity by one in place |
| CartPage.RenderCart | src/app/cart/page.js:8-18 | an empty cart renders the empty message and no total; otherwise the accumulator starts at 0 and ends at the sum of price × quantity over `cartArray` |
| CartPage.RenderStore | src/app/cart/page.js:8-18 | the cart page over a store: the empty message exactly when the store's map is empty, otherwise the store's `cartArray` with the total of its lines |
| CartPage.TotalConcat | src/app/cart/page.js:17-18 | `Total`, the accumulated sum: the total of two runs of entries is the sum of their totals |
| CartPage.TotalSplit | src/app/cart/page.js:17-18 | the total is the entries before position i, plus that line, plus the entries after it |
| CartPage.TotalNonNegative | src/app/cart/page.js:18 | with non-negative prices and quantities the total is non-negative |
| CartPage.TotalAfterUpdate | src/app/cart/page.js:18 | setting an entry's quantity to q ≥ 1 changes the total by its price × (q − old quantity) |
| CartPage.TotalAfterRemove | src/app/cart/page.js:18 | removing an entry takes its line out of the total |
| CartPage.TotalAfterAdd | src/app/cart/page.js:18 | adding a product not in the cart raises the total by its price |
| CartPage.ExampleTotal | src/app/cart/page.js:73 | an empty cart, a product at 10.00 added, quantity set to 3: the total is 30.00 |
| CartPage.DecrementNeverRemoves | src/app/cart/page.js:44 | `CartCommand` with `ClampedDecrement`: "-" requests max(q − 1, 1): the ids stay the same, the quantity drops by one but stays ≥ 1, and at quantity 1 the cart is unchanged |
| CartPage.IncrementEntry | src/app/cart/page.js:52 | `CartCommand`: "+" raises that entry's quantity by one, in place |
| CartPage.RemoveButtonEntry | src/app/cart/page.js:61 | `CartCommand`: "Remove" removes exactly that entry and keeps the others in order |

## Left out

- The product fetch, its loading and error states and the reload retry (src/app/page.js:17-34, 61-81). These are network I/O.
- JSX rendering, `next/image`, `next/link`, class names, and src/app/header.js and src/app/layout.js. These are presentation. The header badge is `cartArray.length`, covered by `OrderedMaps.SizeIsDistinctKeys`.
- React scheduling: when effects run, their order at mount, and StrictMode double invocation. The context provider and the `useCart` outside-provider guard (src/app/hooks/cart.js:76-82) are framework plumbing. The store is an explicit object, and its save and load steps are methods the caller runs; the commands do not run the save step themselves.
- `JSON.stringify`/`JSON.parse` internals. The slot holds either the serialized pairs the save step writes or some other text, and the model counts any such other text as a parse failure that keeps the current cart. The source restores some of it without an error: JSON `null` or `""` gives an empty `Map`, and an array of two-element arrays whose values are not cart entries (`[[1,2]]`) gives a non-empty `Map` of those values.
- `console.error` logging. The load step reports `ParseFailed` instead.
- Floating-point prices and `toFixed(2)` formatting. Prices are integer cents.
- Unicode case mapping. `toLowerCase` is modelled on ASCII letters only.
- Product fields beyond id, title, price and image. The spread `{ ...product }` copies them all; the model carries these four.
- The search box's `setSearch` and the product state setter. These are plain assignments.
- Non-integer quantities. JavaScript quantities are numbers; the model uses `int`.
- `OrderedMaps.Put`, `OrderedMaps.Erase`: state the JavaScript `Map` behaviour only for pair lists with unique keys, the invariant every `JsMap` keeps.
- `PriceSort.SortInPlace`: implements the engine's sort as insertion sort. ECMA-262 leaves the algorithm open, so the contract stated is the result rather than the algorithm. `StableSortIsUnique` shows that every stable sort has that result.
