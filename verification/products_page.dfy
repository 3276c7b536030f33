/**
 * The products page's grouping of the table by category.
 */
module ProductsPage {
  import opened CartSlice
  import ProductData
  import Seqs

  /** One section of the page: a category and its products. */
  datatype Group = Group(category: string, items: seq<Product>)

  /** `categories.map(category => ({category, items: products.filter(...)}))`. */
  function Grouped(cats: seq<string>, catalog: seq<Product>): (gs: seq<Group>)
    ensures |gs| == |cats|
    ensures forall i :: 0 <= i < |gs| ==> gs[i].category == cats[i]
  {
    seq(|cats|, i requires 0 <= i < |cats| => Group(cats[i], ProductData.InCategory(catalog, cats[i])))
  }

  /**
   * Every group holds only products of its own category, taken from the
   * catalog in catalog order, and all of them.
   */
  lemma GroupItems(cats: seq<string>, catalog: seq<Product>, i: nat)
    requires i < |cats|
    ensures forall k :: 0 <= k < |Grouped(cats, catalog)[i].items| ==>
      Grouped(cats, catalog)[i].items[k].category == cats[i]
    ensures forall k :: 0 <= k < |catalog| && catalog[k].category == cats[i] ==>
      catalog[k] in Grouped(cats, catalog)[i].items
    ensures Seqs.SubsequenceOf(Grouped(cats, catalog)[i].items, catalog)
  {
    Seqs.FilterIsSubsequence((p: Product) => p.category == cats[i], catalog);
  }

  /** With no category listed twice, no product lies in two groups. */
  lemma GroupsDisjoint(cats: seq<string>, catalog: seq<Product>, p: Product)
    requires Seqs.NoDuplicates(cats)
    ensures forall i, j :: 0 <= i < j < |cats| && p in Grouped(cats, catalog)[i].items ==>
      p !in Grouped(cats, catalog)[j].items
  {
    forall i, j | 0 <= i < j < |cats| && p in Grouped(cats, catalog)[i].items
      ensures p !in Grouped(cats, catalog)[j].items
    {
      GroupItems(cats, catalog, i);
      GroupItems(cats, catalog, j);
    }
  }

  /** The grouping by the categories the catalog itself yields, first occurrence first. */
  function GroupsOf(catalog: seq<Product>): (gs: seq<Group>)
    ensures |gs| <= |catalog|
  {
    Grouped(Seqs.Dedup(ProductData.CategoriesOf(catalog)), catalog)
  }

  /** Every product of the catalog lies in some group of `GroupsOf` and in no second one. */
  lemma EveryProductInOneGroup(catalog: seq<Product>, k: nat)
    requires k < |catalog|
    ensures exists i :: 0 <= i < |GroupsOf(catalog)| && catalog[k] in GroupsOf(catalog)[i].items
    ensures forall i, j :: 0 <= i < j < |GroupsOf(catalog)| && catalog[k] in GroupsOf(catalog)[i].items ==>
      catalog[k] !in GroupsOf(catalog)[j].items
  {
    var cs := ProductData.CategoriesOf(catalog);
    var cats := Seqs.Dedup(cs);
    Seqs.DedupMembers(cs);
    Seqs.DedupNoDuplicates(cs);
    assert cs[k] == catalog[k].category;
    var i :| 0 <= i < |cats| && cats[i] == catalog[k].category;
    GroupItems(cats, catalog, i);
    assert catalog[k] in GroupsOf(catalog)[i].items;
    GroupsDisjoint(cats, catalog, catalog[k]);
  }

  /** The category of each group, in page order. */
  function Headings(gs: seq<Group>): (cs: seq<string>)
    ensures |cs| == |gs|
  {
    seq(|gs|, i requires 0 <= i < |gs| => gs[i].category)
  }

  /** The page's grouping of the product table: RPG, Indie and Action, in that order. */
  lemma PageGroups()
    ensures Headings(Grouped(ProductData.Categories, ProductData.Products)) == ["RPG", "Indie", "Action"]
  {
    ProductData.CategoriesValue();
    GroupHeadings(ProductData.Categories, ProductData.Products);
  }

  /** The headings of a grouping are the categories it was given. */
  lemma GroupHeadings(cats: seq<string>, catalog: seq<Product>)
    ensures Headings(Grouped(cats, catalog)) == cats
  {
  }
}
