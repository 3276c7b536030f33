/**
 * Cart selectors: read-only projections of the cart state, recomputed on every
 * read.
 */
module Selectors {
  import opened CartSlice

  /** The mathematical sum of the prices of `items`, in cents. */
  function PriceSum(items: seq<Product>): (total: int)
    ensures (forall i :: 0 <= i < |items| ==> items[i].price == 0) ==> total == 0
  {
    if items == [] then 0 else items[0].price + PriceSum(items[1..])
  }

  /**
   * `items.reduce((sum, item) => sum + item.price, sum)`: the left fold the
   * selector runs, visiting the items from first to last.
   */
  function ReducePrices(items: seq<Product>, sum: int): (total: int)
    ensures total == sum + PriceSum(items)
  {
    if items == [] then sum else ReducePrices(items[1..], sum + items[0].price)
  }

  /** `selectCartItems`: the cart's items, as stored. */
  function SelectCartItems(state: CartState): (items: seq<Product>)
    reads state
    ensures items == state.items
  {
    state.items
  }

  /** `selectTotalItems`: the number of items, one per game. */
  function SelectTotalItems(state: CartState): (n: nat)
    reads state
    ensures n == |state.items|
  {
    |state.items|
  }

  /** `selectTotalCost`: the fold of the prices starting from 0. */
  function SelectTotalCost(state: CartState): (total: int)
    reads state
    ensures total == PriceSum(state.items)
    ensures state.items == [] ==> total == 0
  {
    ReducePrices(state.items, 0)
  }

  /** The fold step: the total of `items + [p]` is the total of `items` plus `p`'s price. */
  lemma {:induction false} PriceSumSnoc(items: seq<Product>, p: Product)
    ensures PriceSum(items + [p]) == PriceSum(items) + p.price
  {
    PriceSumConcat(items, [p]);
  }

  /** The total of a concatenation is the sum of the totals. */
  lemma {:induction false} PriceSumConcat(a: seq<Product>, b: seq<Product>)
    ensures PriceSum(a + b) == PriceSum(a) + PriceSum(b)
  {
    if a != [] {
      PriceSumConcat(a[1..], b);
      calc {
        PriceSum(a + b);
        (a + b)[0].price + PriceSum((a + b)[1..]);
        { assert (a + b)[1..] == a[1..] + b; }
        a[0].price + PriceSum(a[1..] + b);
      }
    } else {
      assert a + b == b;
    }
  }

  /** With no negative prices, the total is at least 0 and at least every item's price. */
  lemma {:induction false} PriceSumBounds(items: seq<Product>)
    requires forall i :: 0 <= i < |items| ==> items[i].price >= 0
    ensures PriceSum(items) >= 0
    ensures forall i :: 0 <= i < |items| ==> PriceSum(items) >= items[i].price
  {
    if items != [] {
      PriceSumBounds(items[1..]);
      assert forall i :: 1 <= i < |items| ==> items[i] == items[1..][i - 1];
    }
  }

  /** Removing the id of one item of a cart with distinct ids lowers the total by its price. */
  lemma PriceSumWithoutSingle(items: seq<Product>, k: nat)
    requires DistinctIds(items) && k < |items|
    ensures PriceSum(Without(items, items[k].id)) == PriceSum(items) - items[k].price
  {
    var before, item, after := items[..k], items[k], items[k + 1..];
    WithoutSingle(items, k);
    SplitAt(items, k);
    PriceSumSplit(before, item, after);
  }

  /** The total of `before + [item] + after` is that of `before + after` plus `item`'s price. */
  lemma PriceSumSplit(before: seq<Product>, item: Product, after: seq<Product>)
    ensures PriceSum(before + [item] + after) == PriceSum(before + after) + item.price
  {
    PriceSumConcat(before + [item], after);
    PriceSumSnoc(before, item);
    PriceSumConcat(before, after);
  }

  /**
   * `addToCart(p)` on a cart with distinct ids changes the total by `p`'s price:
   * up when `p` is added, down by the price of the removed item otherwise, and
   * changes the item count by exactly one.
   */
  lemma ToggleChangesTotals(items: seq<Product>, p: Product)
    requires DistinctIds(items)
    ensures !HasId(items, p.id) ==>
      PriceSum(Toggle(items, p)) == PriceSum(items) + p.price &&
      |Toggle(items, p)| == |items| + 1
    ensures HasId(items, p.id) ==>
      exists k :: (0 <= k < |items| && items[k].id == p.id &&
                   PriceSum(Toggle(items, p)) == PriceSum(items) - items[k].price &&
                   |Toggle(items, p)| == |items| - 1)
  {
    if HasId(items, p.id) {
      var k :| 0 <= k < |items| && items[k].id == p.id;
      PriceSumWithoutSingle(items, k);
      WithoutSingle(items, k);
    } else {
      PriceSumSnoc(items, p);
    }
  }

  /** `removeFromCart(id)` lowers the total by exactly the prices of the items with `id`. */
  lemma {:induction false} PriceSumWithout(items: seq<Product>, id: string)
    ensures PriceSum(Without(items, id)) == PriceSum(items) - PriceSumOfId(items, id)
  {
    if items != [] {
      PriceSumWithout(items[1..], id);
      assert items == [items[0]] + items[1..];
      WithoutConcat([items[0]], items[1..], id);
      PriceSumConcat(if items[0].id != id then [items[0]] else [], Without(items[1..], id));
    }
  }

  /** The sum of the prices of the items carrying `id`. */
  function PriceSumOfId(items: seq<Product>, id: string): (total: int)
    ensures !HasId(items, id) ==> total == 0
  {
    if items == [] then 0
    else (if items[0].id == id then items[0].price else 0) + PriceSumOfId(items[1..], id)
  }
}
