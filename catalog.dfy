/**
 * The catalog page of src/app/page.js: the search filter and price sort that derive the
 * displayed product list, the three-state sort toggle, and the cart controls on each
 * product card.
 */
module Catalog {
  import opened Wrappers
  import opened OrderedMaps
  import opened CartStore
  import opened PriceSort

  /** The `sort` state: `null`, `"asc"` or `"desc"`. */
  datatype SortMode = NoSort | Asc | Desc

  // ---------------------------------------------------------------------------
  // Search

  /** `toLowerCase` on ASCII letters; every other character is left as it is. */
  function LowerChar(c: char): char
  {
    if 'A' <= c <= 'Z' then (c as int + 32) as char else c
  }

  function ToLower(s: string): (r: string)
    ensures |r| == |s|
  {
    seq(|s|, i requires 0 <= i < |s| => LowerChar(s[i]))
  }

  /** `needle` occurs in `hay` starting at position `i`. */
  predicate OccursAt(hay: string, needle: string, i: int)
  {
    0 <= i <= |hay| - |needle| && hay[i..i + |needle|] == needle
  }

  /** `hay.includes(needle)` */
  predicate Includes(hay: string, needle: string)
  {
    exists i :: 0 <= i <= |hay| - |needle| && OccursAt(hay, needle, i)
  }

  /** The filter's test: the lower-cased title contains the lower-cased search text. */
  predicate Matches(p: Product, search: string)
  {
    Includes(ToLower(p.title), ToLower(search))
  }

  /** `products.filter(p => p.title.toLowerCase().includes(search.toLowerCase()))` */
  function KeepMatching(ps: seq<Product>, search: string): seq<Product>
  {
    if ps == [] then []
    else (if Matches(ps[0], search) then [ps[0]] else []) + KeepMatching(ps[1..], search)
  }

  /** The filter step: everything for an empty search, the matching products otherwise. */
  function SearchFilter(products: seq<Product>, search: string): seq<Product>
  {
    if search == "" then products else KeepMatching(products, search)
  }

  /** `r` can be obtained from `s` by leaving elements out. */
  predicate IsSubsequence(r: seq<Product>, s: seq<Product>)
    decreases |s|
  {
    if r == [] then true
    else if s == [] then false
    else (r[0] == s[0] && IsSubsequence(r[1..], s[1..])) || IsSubsequence(r, s[1..])
  }

  /**
   * With a non-empty search the filter keeps, in their original order, exactly the
   * products whose lower-cased title contains the lower-cased search text, each as often as
   * it occurs in the catalog.
   */
  lemma {:induction false} KeepMatchingCorrect(ps: seq<Product>, search: string)
    ensures IsSubsequence(KeepMatching(ps, search), ps)
    ensures forall p :: p in KeepMatching(ps, search) ==> Matches(p, search)
    ensures forall p :: Matches(p, search) ==>
      multiset(KeepMatching(ps, search))[p] == multiset(ps)[p]
  {
    if ps != [] {
      var rest := KeepMatching(ps[1..], search);
      KeepMatchingCorrect(ps[1..], search);
      assert ps == [ps[0]] + ps[1..];
      if !Matches(ps[0], search) {
        assert KeepMatching(ps, search) == rest;
      } else {
        assert KeepMatching(ps, search) == [ps[0]] + rest;
      }
    }
  }

  // ---------------------------------------------------------------------------
  // The derived list

  /** The products the grid shows: `filteredProducts`. */
  method FilteredProducts(products: seq<Product>, search: string, sort: SortMode) returns (r: seq<Product>)
    ensures search == "" && sort == NoSort ==> r == products
    ensures sort == NoSort ==> r == SearchFilter(products, search)
    ensures multiset(r) == multiset(SearchFilter(products, search))
    ensures forall v :: AtPrice(r, v) == AtPrice(SearchFilter(products, search), v)
    ensures sort == Asc ==> forall i, j :: 0 <= i < j < |r| ==> r[i].price <= r[j].price
    ensures sort == Desc ==> forall i, j :: 0 <= i < j < |r| ==> r[i].price >= r[j].price
  {
    var copy := products;
    var result := new Product[|copy|](i requires 0 <= i < |copy| => copy[i]);
    assert result[..] == products;
    if search != "" {
      var kept := KeepMatching(result[..], search);
      result := new Product[|kept|](i requires 0 <= i < |kept| => kept[i]);
      assert result[..] == kept;
    }
    ghost var filtered := result[..];
    assert filtered == SearchFilter(products, search);
    if sort == Asc {
      SortInPlace(result, Ascending);
    } else if sort == Desc {
      SortInPlace(result, Descending);
    }
    r := result[..];
    if sort == Asc {
      SortCorrect(Ascending, filtered);
    } else if sort == Desc {
      SortCorrect(Descending, filtered);
    }
  }

  /** The catalog [Shirt at 20.00, Shoe at 10.00] sorted ascending lists the shoe first. */
  lemma ExampleSortAscending()
    ensures var shirt, shoe := Product(1, "Shirt", 2000, ""), Product(2, "Shoe", 1000, "");
      Sort(Ascending, [shirt, shoe]) == [shoe, shirt]
  {
    var shirt, shoe := Product(1, "Shirt", 2000, ""), Product(2, "Shoe", 1000, "");
    assert [shirt, shoe][..1] == [shirt] && [shirt][..0] == [];
    assert Sort(Ascending, [shirt]) == [shirt];
    assert Insert(Ascending, [shirt], shoe) == Insert(Ascending, [], shoe) + [shirt];
  }

  /** On the same catalog the search "sh" keeps both products. */
  lemma ExampleSearchMatches()
    ensures var shirt, shoe := Product(1, "Shirt", 2000, ""), Product(2, "Shoe", 1000, "");
      KeepMatching([shirt, shoe], "sh") == [shirt, shoe]
  {
    var shirt, shoe := Product(1, "Shirt", 2000, ""), Product(2, "Shoe", 1000, "");
    assert [shirt, shoe][1..] == [shoe] && [shoe][1..] == [];
    assert ToLower("sh") == "sh";
    assert ToLower("Shirt") == "shirt" && OccursAt("shirt", "sh", 0);
    assert ToLower("Shoe") == "shoe" && OccursAt("shoe", "sh", 0);
    assert Matches(shirt, "sh") && Matches(shoe, "sh");
    assert KeepMatching([shoe], "sh") == [shoe] + KeepMatching([], "sh");
  }

  /** On the same catalog the search "zzz" keeps nothing. */
  lemma ExampleSearchEmpty()
    ensures var shirt, shoe := Product(1, "Shirt", 2000, ""), Product(2, "Shoe", 1000, "");
      KeepMatching([shirt, shoe], "zzz") == []
  {
    var shirt, shoe := Product(1, "Shirt", 2000, ""), Product(2, "Shoe", 1000, "");
    assert [shirt, shoe][1..] == [shoe] && [shoe][1..] == [];
    assert ToLower("zzz") == "zzz";
    assert ToLower("Shirt") == "shirt";
    assert ToLower("Shoe") == "shoe";
    assert !Matches(shirt, "zzz") by {
      forall i | 0 <= i <= 2 ensures !OccursAt("shirt", "zzz", i) {
        assert "shirt"[i..i + 3][0] == "shirt"[i] != 'z';
      }
    }
    assert !Matches(shoe, "zzz") by {
      forall i | 0 <= i <= 1 ensures !OccursAt("shoe", "zzz", i) {
        assert "shoe"[i..i + 3][0] == "shoe"[i] != 'z';
      }
    }
    assert KeepMatching([shoe], "zzz") == KeepMatching([], "zzz");
  }

  // ---------------------------------------------------------------------------
  // Sort toggle

  /** The page's sort state; the other inputs of the derivation are passed to `FilteredProducts`. */
  class CatalogPage {
    var sort: SortMode

    constructor ()
      ensures sort == NoSort
    {
      sort := NoSort;
    }

    /** `toggleSort`: null to "asc", "asc" to "desc", anything else back to null. */
    method ToggleSort()
      modifies this`sort
      ensures sort == NextSort(old(sort))
    {
      if sort == NoSort {
        sort := Asc;
      } else if sort == Asc {
        sort := Desc;
      } else {
        sort := NoSort;
      }
    }
  }

  function NextSort(s: SortMode): (n: SortMode)
  {
    match s
    case NoSort => Asc
    case Asc => Desc
    case Desc => NoSort
  }

  /** The toggle always changes the mode and returns to it after three presses. */
  lemma ToggleCycles(s: SortMode)
    ensures NextSort(s) != s && NextSort(NextSort(s)) != s
    ensures NextSort(NextSort(NextSort(s))) == s
  {
  }

  // ---------------------------------------------------------------------------
  // Product card controls

  datatype GridButton = AddButton | MinusButton | PlusButton

  /**
   * The command a button on a product's card issues, or `None` when the card does not
   * show that button: a product in the cart shows "-" and "+", one not in the cart shows
   * "Add to Cart".
   */
  function GridCommand(cart: Cart, p: Product, b: GridButton): Option<Command>
  {
    match Find(cart, p.id)
    case None => if b == AddButton then Some(AddToCart(p)) else None
    case Some(inCart) =>
      match b
      case AddButton => None
      case MinusButton => Some(UpdateQuantity(p.id, inCart.quantity - 1))
      case PlusButton => Some(UpdateQuantity(p.id, inCart.quantity + 1))
  }

  /**
   * "Add to Cart" is offered exactly when the product is not in the cart, so from the grid
   * adding always appends a new entry of quantity 1 and never resets an existing one.
   */
  lemma GridAddOnlyWhenAbsent(cart: Cart, p: Product)
    requires UniqueKeys(cart)
    ensures GridCommand(cart, p, AddButton).Some? <==> p.id !in Keys(cart)
    ensures GridCommand(cart, p, AddButton).Some? ==>
      Apply(cart, GridCommand(cart, p, AddButton).value) == cart + [(p.id, WithQuantity(p, 1))]
  {
    if p.id !in Keys(cart) {
      PutAbsent(cart, p.id, WithQuantity(p, 1));
    }
  }

  /**
   * "-" on a card whose entry is at position `i` sets its quantity to one less in place,
   * and at quantity 1 removes the entry.
   */
  lemma GridMinus(cart: Cart, p: Product, i: int)
    requires UniqueKeys(cart) && 0 <= i < |cart| && cart[i].0 == p.id
    ensures GridCommand(cart, p, MinusButton).Some?
    ensures cart[i].1.quantity == 1 ==>
      Apply(cart, GridCommand(cart, p, MinusButton).value) == cart[..i] + cart[i + 1..]
    ensures cart[i].1.quantity > 1 ==>
      Apply(cart, GridCommand(cart, p, MinusButton).value)
        == cart[i := (p.id, cart[i].1.(quantity := cart[i].1.quantity - 1))]
  {
    FindAt(cart, i);
    UpdatedEntry(cart, p.id, cart[i].1.quantity - 1);
    RemovedEntry(cart, p.id);
  }

  /** "+" on a card whose entry is at position `i` sets its quantity to one more in place. */
  lemma GridPlus(cart: Cart, p: Product, i: int)
    requires UniqueKeys(cart) && QuantitiesPositive(cart) && 0 <= i < |cart| && cart[i].0 == p.id
    ensures GridCommand(cart, p, PlusButton).Some?
    ensures Apply(cart, GridCommand(cart, p, PlusButton).value)
      == cart[i := (p.id, cart[i].1.(quantity := cart[i].1.quantity + 1))]
  {
    FindAt(cart, i);
    UpdatedEntry(cart, p.id, cart[i].1.quantity + 1);
  }
}
