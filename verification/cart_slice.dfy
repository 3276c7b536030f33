/**
 * The cart slice of the store: its state is the list of products in the cart
 * (a cart item is a product; there is no quantity), and two reducers change it:
 * `addToCart`, which toggles a product in or out, and `removeFromCart`.
 */
module CartSlice {
  import opened Wrappers
  import Seqs

  /**
   * A catalog product, which is also the type of a cart item. The price is an
   * amount in integer cents (59.99 is 5999).
   */
  datatype Product = Product(
    id: string,
    name: string,
    price: int,
    category: string,
    image: string,
    description: string)

  /** `items.some(item => item.id === id)`. */
  predicate HasId(items: seq<Product>, id: string)
  {
    exists i :: 0 <= i < |items| && items[i].id == id
  }

  /** No two items share an id: the invariant the two reducers keep. */
  predicate DistinctIds(items: seq<Product>)
  {
    forall i, j :: 0 <= i < j < |items| ==> items[i].id != items[j].id
  }

  /** `k` is the index of the first item carrying `id`. */
  ghost predicate FirstWithId(items: seq<Product>, id: string, k: int)
  {
    0 <= k < |items| && items[k].id == id && forall j :: 0 <= j < k ==> items[j].id != id
  }

  /** `items.find(item => item.id === id)`: the first item carrying `id`, if any. */
  function FindById(items: seq<Product>, id: string): (r: Option<Product>)
    ensures r.None? <==> !HasId(items, id)
    ensures r.Some? ==> exists k :: FirstWithId(items, id, k) && items[k] == r.value
  {
    if items == [] then None
    else if items[0].id == id then (assert FirstWithId(items, id, 0); Some(items[0]))
    else
      var r := FindById(items[1..], id);
      assert r.Some? ==> exists k :: FirstWithId(items, id, k) && items[k] == r.value by {
        if r.Some? {
          var k :| FirstWithId(items[1..], id, k) && items[1..][k] == r.value;
          assert FirstWithId(items, id, k + 1);
        }
      }
      r
  }

  /** `items.filter(item => item.id !== id)`: every item except those carrying `id`. */
  function Without(items: seq<Product>, id: string): (r: seq<Product>)
    ensures |r| <= |items|
  {
    Seqs.Filter((item: Product) => item.id != id, items)
  }

  /** The state `addToCart(p)` leaves behind: drop `p.id` if present, else append `p`. */
  function Toggle(items: seq<Product>, p: Product): (r: seq<Product>)
    ensures HasId(r, p.id) <==> !HasId(items, p.id)
  {
    if FindById(items, p.id).Some? then
      WithoutSpec(items, p.id);
      Without(items, p.id)
    else
      assert (items + [p])[|items|] == p;
      items + [p]
  }

  /** `CartState`: the cart slice's state, whose `items` the reducers replace. */
  class CartState {
    var items: seq<Product>

    /** `initialState`: the empty cart. */
    constructor ()
      ensures items == []
      ensures DistinctIds(items)
    {
      items := [];
    }

    /** `addToCart(p)`: remove every item with `p.id` if there is one, else push `p`. */
    method AddToCart(p: Product)
      modifies this
      ensures items == Toggle(old(items), p)
      ensures HasId(old(items), p.id) ==> !HasId(items, p.id)
      ensures !HasId(old(items), p.id) ==> items == old(items) + [p]
      ensures DistinctIds(old(items)) ==> DistinctIds(items)
    {
      ToggleKeepsDistinctIds(items, p);
      WithoutSpec(items, p.id);
      var existing := FindById(items, p.id);
      if existing.Some? {
        items := Without(items, p.id);
        return;
      }
      items := items + [p];
    }

    /** `removeFromCart(id)`: keep every item whose id differs from `id`. */
    method RemoveFromCart(id: string)
      modifies this
      ensures items == Without(old(items), id)
      ensures !HasId(items, id)
      ensures !HasId(old(items), id) ==> items == old(items)
      ensures DistinctIds(old(items)) ==> DistinctIds(items)
    {
      if DistinctIds(items) {
        WithoutKeepsDistinctIds(items, id);
      }
      if !HasId(items, id) {
        WithoutAbsentIsIdentity(items, id);
      }
      WithoutSpec(items, id);
      items := Without(items, id);
    }
  }

  /**
   * Removing `id` leaves no item with that id, keeps every other item, and keeps
   * the survivors in their original relative order.
   */
  lemma WithoutSpec(items: seq<Product>, id: string)
    ensures !HasId(Without(items, id), id)
    ensures forall i :: 0 <= i < |items| && items[i].id != id ==> items[i] in Without(items, id)
    ensures forall i :: 0 <= i < |Without(items, id)| ==> Without(items, id)[i] in items
    ensures Seqs.SubsequenceOf(Without(items, id), items)
  {
    Seqs.FilterMembers((item: Product) => item.id != id, items);
    Seqs.FilterIsSubsequence((item: Product) => item.id != id, items);
  }

  /** Removing an id that no item carries leaves the cart as it was. */
  lemma WithoutAbsentIsIdentity(items: seq<Product>, id: string)
    requires !HasId(items, id)
    ensures Without(items, id) == items
  {
    Seqs.FilterKeepsAll((item: Product) => item.id != id, items);
  }

  /** `removeFromCart(id)` is idempotent. */
  lemma WithoutIdempotent(items: seq<Product>, id: string)
    ensures Without(Without(items, id), id) == Without(items, id)
  {
    Seqs.FilterIdempotent((item: Product) => item.id != id, items);
  }

  /** Removing from a concatenation removes from each part. */
  lemma WithoutConcat(a: seq<Product>, b: seq<Product>, id: string)
    ensures Without(a + b, id) == Without(a, id) + Without(b, id)
  {
    Seqs.FilterConcat((item: Product) => item.id != id, a, b);
  }

  /** Removing an id keeps the ids of the remaining items distinct. */
  lemma {:induction false} WithoutKeepsDistinctIds(items: seq<Product>, id: string)
    requires DistinctIds(items)
    ensures DistinctIds(Without(items, id))
  {
    if items != [] {
      var rest := items[1..];
      assert DistinctIds(rest);
      WithoutKeepsDistinctIds(rest, id);
      var tail := Without(rest, id);
      WithoutSpec(rest, id);
      assert forall i :: 0 <= i < |tail| ==> tail[i].id != items[0].id;
    }
  }

  /** In a cart with distinct ids, removing the id of the item at `k` deletes just that item. */
  lemma WithoutSingle(items: seq<Product>, k: nat)
    requires DistinctIds(items) && k < |items|
    ensures Without(items, items[k].id) == items[..k] + items[k + 1..]
  {
    var before, item, after := items[..k], items[k], items[k + 1..];
    SplitAt(items, k);
    OnlyItemWithItsId(items, k);
    WithoutConcat(before + [item], after, item.id);
    WithoutConcat(before, [item], item.id);
    WithoutAbsentIsIdentity(before, item.id);
    WithoutAbsentIsIdentity(after, item.id);
    WithoutFirst([item], item.id);
  }

  /** With distinct ids, no item before or after index `k` has the id of the item at `k`. */
  lemma OnlyItemWithItsId(items: seq<Product>, k: nat)
    requires DistinctIds(items) && k < |items|
    ensures !HasId(items[..k], items[k].id) && !HasId(items[k + 1..], items[k].id)
  {
    forall i | 0 <= i < k
      ensures items[..k][i].id != items[k].id
    {
      assert items[..k][i] == items[i];
    }
    forall j | k < j < |items|
      ensures items[j].id != items[k].id
    {
    }
  }

  /** A sequence is what comes before index `k`, the element at `k`, and what follows. */
  lemma SplitAt(items: seq<Product>, k: nat)
    requires k < |items|
    ensures items == items[..k] + [items[k]] + items[k + 1..]
  {
  }

  /** Removing from a non-empty cart: the first item survives unless it carries `id`. */
  lemma WithoutFirst(items: seq<Product>, id: string)
    requires items != []
    ensures Without(items, id) == (if items[0].id != id then [items[0]] else []) + Without(items[1..], id)
  {
  }

  /** `addToCart(p)` on a cart without `p.id` appends `p` and changes nothing before it. */
  lemma ToggleAbsentAppends(items: seq<Product>, p: Product)
    requires !HasId(items, p.id)
    ensures |Toggle(items, p)| == |items| + 1
    ensures Toggle(items, p)[..|items|] == items && Toggle(items, p)[|items|] == p
  {
  }

  /**
   * `addToCart(p)` on a cart with `p.id` removes every item with that id and keeps
   * the others, in order.
   */
  lemma TogglePresentRemoves(items: seq<Product>, p: Product)
    requires HasId(items, p.id)
    ensures !HasId(Toggle(items, p), p.id)
    ensures forall i :: 0 <= i < |items| && items[i].id != p.id ==> items[i] in Toggle(items, p)
    ensures Seqs.SubsequenceOf(Toggle(items, p), items)
  {
    WithoutSpec(items, p.id);
  }

  /** Toggling the same product twice, from a cart without it, gives back the cart. */
  lemma ToggleInvolution(items: seq<Product>, p: Product)
    requires !HasId(items, p.id)
    ensures Toggle(Toggle(items, p), p) == items
  {
    assert HasId(items + [p], p.id) by {
      assert (items + [p])[|items|].id == p.id;
    }
    WithoutConcat(items, [p], p.id);
    WithoutAbsentIsIdentity(items, p.id);
    assert Without([p], p.id) == [];
  }

  /** `addToCart` keeps the ids in the cart pairwise distinct. */
  lemma ToggleKeepsDistinctIds(items: seq<Product>, p: Product)
    ensures DistinctIds(items) ==> DistinctIds(Toggle(items, p))
  {
    if DistinctIds(items) {
      if HasId(items, p.id) {
        WithoutKeepsDistinctIds(items, p.id);
      } else {
        var r := items + [p];
        forall i, j | 0 <= i < j < |r|
          ensures r[i].id != r[j].id
        {
          if j == |items| {
            assert r[i] == items[i];
          }
        }
      }
    }
  }
}
