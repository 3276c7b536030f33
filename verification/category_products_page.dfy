/**
 * The page of one category: whether the route names a known category, the
 * products shown for it, and the add button that only ever adds.
 */
module CategoryProductsPage {
  import opened CartSlice
  import ProductData
  import Seqs

  /** `categories.includes(category)`. */
  predicate IsKnownCategory(categories: seq<string>, category: string)
  {
    category in categories
  }

  /**
   * With `categories` derived from the catalog, a category is known exactly
   * when some product of the catalog has it.
   */
  lemma KnownCategoryIffListed(catalog: seq<Product>, category: string)
    ensures IsKnownCategory(Seqs.Dedup(ProductData.CategoriesOf(catalog)), category) <==>
      exists i :: 0 <= i < |catalog| && catalog[i].category == category
  {
    var cs := ProductData.CategoriesOf(catalog);
    Seqs.DedupMembers(cs);
    if category in Seqs.Dedup(cs) {
      var k :| 0 <= k < |Seqs.Dedup(cs)| && Seqs.Dedup(cs)[k] == category;
      var i :| 0 <= i < |cs| && cs[i] == category;
      assert catalog[i].category == category;
    }
  }

  /** The products shown: none for an unknown category, else those of the category in catalog order. */
  function CategoryItems(categories: seq<string>, catalog: seq<Product>, category: string): (items: seq<Product>)
    ensures !IsKnownCategory(categories, category) ==> items == []
    ensures forall i :: 0 <= i < |items| ==> items[i].category == category && items[i] in catalog
  {
    if !IsKnownCategory(categories, category) then [] else ProductData.InCategory(catalog, category)
  }

  /**
   * With `categories` derived from the catalog the guard is only a shortcut:
   * for every category the page shows exactly the catalog's products of that
   * category, in catalog order.
   */
  lemma CategoryItemsIsFilter(catalog: seq<Product>, category: string)
    ensures var items := CategoryItems(Seqs.Dedup(ProductData.CategoriesOf(catalog)), catalog, category);
      items == ProductData.InCategory(catalog, category) && Seqs.SubsequenceOf(items, catalog)
    ensures var items := CategoryItems(Seqs.Dedup(ProductData.CategoriesOf(catalog)), catalog, category);
      forall i :: 0 <= i < |catalog| && catalog[i].category == category ==> catalog[i] in items
  {
    var filtered := ProductData.InCategory(catalog, category);
    KnownCategoryIffListed(catalog, category);
    if filtered != [] {
      var i :| 0 <= i < |catalog| && catalog[i] == filtered[0];
      assert catalog[i].category == category;
    }
    Seqs.FilterIsSubsequence((p: Product) => p.category == category, catalog);
  }

  /** The page's state: the category from the route and the ids flagged as just added. */
  class CategoryPage {
    const category: string
    var justAdded: set<string>

    constructor (category: string)
      ensures this.category == category && justAdded == {}
    {
      this.category := category;
      justAdded := {};
    }

    /**
     * The add button of one product: nothing happens when the product is
     * already in the cart, so the toggling `addToCart` is only ever asked to
     * add; otherwise the product is appended and its id flagged.
     */
    method HandleAddToCart(cart: CartState, product: Product)
      modifies this, cart
      ensures HasId(old(cart.items), product.id) ==>
        cart.items == old(cart.items) && justAdded == old(justAdded)
      ensures !HasId(old(cart.items), product.id) ==>
        cart.items == old(cart.items) + [product] && justAdded == old(justAdded) + {product.id}
      ensures HasId(cart.items, product.id)
      ensures old(cart.items) <= cart.items
      ensures DistinctIds(old(cart.items)) ==> DistinctIds(cart.items)
    {
      if HasId(cart.items, product.id) {
        return;
      }
      cart.AddToCart(product);
      assert cart.items[|cart.items| - 1] == product;
      justAdded := justAdded + {product.id};
    }
  }
}
