/**
 * The static product catalog and the list of its categories.
 */
module ProductData {
  import opened CartSlice
  import Seqs

  /** A catalog entry. The image URL and description text are not reproduced. */
  function Entry(id: string, name: string, price: int, category: string): (p: Product)
    ensures p.id == id && p.name == name && p.price == price && p.category == category
  {
    Product(id, name, price, category, "", "")
  }

  /** `products`: eight RPG, eight Indie and eight Action games, prices in cents. */
  const Products: seq<Product> := [
    Entry("game-elden", "Elden Ring", 5999, "RPG"),
    Entry("game-baldurs-gate-3", "Baldur's Gate 3", 5999, "RPG"),
    Entry("game-witcher-3", "The Witcher 3", 3999, "RPG"),
    Entry("game-skyrim", "Skyrim Special Edition", 3999, "RPG"),
    Entry("game-divinity-2", "Divinity: Original Sin 2", 4499, "RPG"),
    Entry("game-final-fantasy-7", "Final Fantasy VII Remake", 6999, "RPG"),
    Entry("game-cyberpunk", "Cyberpunk 2077", 4999, "RPG"),
    Entry("game-persona-5", "Persona 5 Royal", 5999, "RPG"),
    Entry("game-hades", "Hades", 2499, "Indie"),
    Entry("game-stardew", "Stardew Valley", 1499, "Indie"),
    Entry("game-celeste", "Celeste", 1999, "Indie"),
    Entry("game-undertale", "Undertale", 999, "Indie"),
    Entry("game-dead-cells", "Dead Cells", 2499, "Indie"),
    Entry("game-cuphead", "Cuphead", 1999, "Indie"),
    Entry("game-terraria", "Terraria", 999, "Indie"),
    Entry("game-ori", "Ori and the Will of the Wisps", 2999, "Indie"),
    Entry("game-doom-eternal", "DOOM Eternal", 3999, "Action"),
    Entry("game-hollow-knight", "Hollow Knight", 1499, "Action"),
    Entry("game-god-of-war", "God of War", 4999, "Action"),
    Entry("game-sekiro", "Sekiro: Shadows Die Twice", 5999, "Action"),
    Entry("game-devil-may-cry-5", "Devil May Cry 5", 2999, "Action"),
    Entry("game-spider-man", "Spider-Man Remastered", 5999, "Action"),
    Entry("game-ghost-of-tsushima", "Ghost of Tsushima", 5999, "Action"),
    Entry("game-resident-evil-4", "Resident Evil 4 Remake", 5999, "Action")
  ]

  /** `products.map(p => p.category)`. */
  function CategoriesOf(catalog: seq<Product>): (cs: seq<string>)
    ensures |cs| == |catalog|
    ensures forall i :: 0 <= i < |catalog| ==> cs[i] == catalog[i].category
  {
    seq(|catalog|, i requires 0 <= i < |catalog| => catalog[i].category)
  }

  /** `categories`: the distinct categories, in order of first appearance in the catalog. */
  const Categories: seq<string> := Seqs.Dedup(CategoriesOf(Products))

  /** `products.filter(p => p.category === category)`, as both catalog pages compute it. */
  function InCategory(catalog: seq<Product>, category: string): (items: seq<Product>)
    ensures forall i :: 0 <= i < |items| ==> items[i].category == category && items[i] in catalog
    ensures forall i :: 0 <= i < |catalog| && catalog[i].category == category ==> catalog[i] in items
  {
    var inCategory := (p: Product) => p.category == category;
    Seqs.FilterMembers(inCategory, catalog);
    Seqs.Filter(inCategory, catalog)
  }


  /** `products.map(p => p.id)`. */
  function IdsOf(catalog: seq<Product>): (ids: seq<string>)
    ensures |ids| == |catalog|
    ensures forall i :: 0 <= i < |catalog| ==> ids[i] == catalog[i].id
  {
    seq(|catalog|, i requires 0 <= i < |catalog| => catalog[i].id)
  }

  /** Every product id in the table is different from every other. */
  lemma ProductIdsDistinct()
    ensures DistinctIds(Products)
  {
    var ids := IdsOf(Products);
    TableIdList();
    IdListDistinct(ids);
    assert forall i :: 0 <= i < |Products| ==> Products[i].id == ids[i];
  }

  /** The ids of the table, in order. */
  const TableIdsInOrder: seq<string> := [
    "game-elden",
    "game-baldurs-gate-3",
    "game-witcher-3",
    "game-skyrim",
    "game-divinity-2",
    "game-final-fantasy-7",
    "game-cyberpunk",
    "game-persona-5",
    "game-hades",
    "game-stardew",
    "game-celeste",
    "game-undertale",
    "game-dead-cells",
    "game-cuphead",
    "game-terraria",
    "game-ori",
    "game-doom-eternal",
    "game-hollow-knight",
    "game-god-of-war",
    "game-sekiro",
    "game-devil-may-cry-5",
    "game-spider-man",
    "game-ghost-of-tsushima",
    "game-resident-evil-4"]

  /** `TableIdsInOrder` is what the table holds. */
  lemma TableIdList()
    ensures IdsOf(Products) == TableIdsInOrder
  {
  }

  /** The listed ids are pairwise different strings, checked four rows at a time. */
  lemma IdListDistinct(ids: seq<string>)
    requires ids == TableIdsInOrder
    ensures Seqs.NoDuplicates(ids)
  {
    IdRowsDistinct0(ids);
    IdRowsDistinct4(ids);
    IdRowsDistinct8(ids);
    IdRowsDistinct12(ids);
    IdRowsDistinct16(ids);
    IdRowsDistinct20(ids);
  }

  /** No id at rows 0 to 3 of the list recurs further down. */
  lemma IdRowsDistinct0(ids: seq<string>)
    requires ids == TableIdsInOrder
    ensures forall i, j :: 0 <= i < 4 && i < j < |ids| ==> ids[i] != ids[j]
  {
  }

  /** No id at rows 4 to 7 of the list recurs further down. */
  lemma IdRowsDistinct4(ids: seq<string>)
    requires ids == TableIdsInOrder
    ensures forall i, j :: 4 <= i < 8 && i < j < |ids| ==> ids[i] != ids[j]
  {
  }

  /** No id at rows 8 to 11 of the list recurs further down. */
  lemma IdRowsDistinct8(ids: seq<string>)
    requires ids == TableIdsInOrder
    ensures forall i, j :: 8 <= i < 12 && i < j < |ids| ==> ids[i] != ids[j]
  {
  }

  /** No id at rows 12 to 15 of the list recurs further down. */
  lemma IdRowsDistinct12(ids: seq<string>)
    requires ids == TableIdsInOrder
    ensures forall i, j :: 12 <= i < 16 && i < j < |ids| ==> ids[i] != ids[j]
  {
  }

  /** No id at rows 16 to 19 of the list recurs further down. */
  lemma IdRowsDistinct16(ids: seq<string>)
    requires ids == TableIdsInOrder
    ensures forall i, j :: 16 <= i < 20 && i < j < |ids| ==> ids[i] != ids[j]
  {
  }

  /** No id at rows 20 to 23 of the list recurs further down. */
  lemma IdRowsDistinct20(ids: seq<string>)
    requires ids == TableIdsInOrder
    ensures forall i, j :: 20 <= i < 24 && i < j < |ids| ==> ids[i] != ids[j]
  {
  }

  /** Every price in the table is strictly positive. */
  lemma ProductPricesPositive()
    ensures forall i :: 0 <= i < |Products| ==> Products[i].price > 0
  {
  }

  /**
   * `categories` lists each category once, holds exactly the categories of the
   * products, and orders them by where each first appears in the table.
   */
  lemma CategoriesSpec()
    ensures Seqs.NoDuplicates(Categories)
    ensures forall i :: 0 <= i < |Products| ==> Products[i].category in Categories
    ensures forall i :: 0 <= i < |Categories| ==> Categories[i] in CategoriesOf(Products)
    ensures forall i, j :: 0 <= i < j < |Categories| ==>
      Seqs.FirstIndex(CategoriesOf(Products), Categories[i]) <
      Seqs.FirstIndex(CategoriesOf(Products), Categories[j])
  {
    var cs := CategoriesOf(Products);
    Seqs.DedupNoDuplicates(cs);
    Seqs.DedupMembers(cs);
    Seqs.DedupFirstOccurrenceOrder(cs);
    assert forall i :: 0 <= i < |Products| ==> Products[i].category == cs[i];
  }

  /** For this table, `categories` is RPG, Indie, Action. */
  lemma CategoriesValue()
    ensures Categories == ["RPG", "Indie", "Action"]
  {
    CategoryBlocks();
    DedupOfThreeBlocks(CategoriesOf(Products), "RPG", "Indie", "Action");
  }

  /** The table lists eight RPG games, then eight Indie games, then eight Action games. */
  lemma CategoryBlocks()
    ensures |CategoriesOf(Products)| == 24
    ensures forall i :: 0 <= i < 8 ==> CategoriesOf(Products)[i] == "RPG"
    ensures forall i :: 8 <= i < 16 ==> CategoriesOf(Products)[i] == "Indie"
    ensures forall i :: 16 <= i < 24 ==> CategoriesOf(Products)[i] == "Action"
  {
  }

  /** De-duplicating three runs of eight equal values gives the three values in order. */
  lemma DedupOfThreeBlocks(cs: seq<string>, a: string, b: string, c: string)
    requires |cs| == 24 && a != b && b != c && a != c
    requires forall i :: 0 <= i < 8 ==> cs[i] == a
    requires forall i :: 8 <= i < 16 ==> cs[i] == b
    requires forall i :: 16 <= i < 24 ==> cs[i] == c
    ensures Seqs.Dedup(cs) == [a, b, c]
  {
    assert cs[..1][..0] == [];
    assert Seqs.Dedup(cs[..1]) == [a];
    Seqs.DedupExtendSeen(cs, 1, 8);
    assert cs[..9][..8] == cs[..8];
    assert Seqs.Dedup(cs[..9]) == [a, b];
    Seqs.DedupExtendSeen(cs, 9, 16);
    assert cs[..17][..16] == cs[..16];
    assert Seqs.Dedup(cs[..17]) == [a, b, c];
    Seqs.DedupExtendSeen(cs, 17, 24);
    assert cs[..24] == cs;
  }
}
