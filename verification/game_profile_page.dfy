/**
 * The game profile page: the game looked up from the route id, the back link
 * chosen from the path the user came from, and the cart button that adds or
 * removes the game.
 */
module GameProfilePage {
  import opened Wrappers
  import opened CartSlice
  import ProductData

  /** A link: its target path (`to`) and the text shown on it (`label`). */
  datatype BackLink = BackLink(target: string, text: string)

  /**
   * The back link for the `from` path carried in the navigation state; `None`
   * stands for a missing state or a `from` that is not a string. Any non-empty
   * path is linked back to as it is; only the label depends on its shape.
   */
  function ComputeBackLink(from: Option<string>): (b: BackLink)
    ensures from.None? || from.value == "" ==> b == BackLink("/products", "Back to Games")
    ensures from.Some? && from.value != "" ==> b.target == from.value
  {
    if from.None? || |from.value| == 0 then BackLink("/products", "Back to Games")
    else if "/categories/" <= from.value then BackLink(from.value, "Back to Category")
    else if from.value == "/categories" then BackLink(from.value, "Back to Categories")
    else if from.value == "/products" then BackLink(from.value, "Back to Games")
    else if from.value == "/" then BackLink(from.value, "Back Home")
    else BackLink(from.value, "Back")
  }

  /**
   * Which label a path gets: each one is produced by exactly the paths
   * listed for it, so the classification is a partition of all paths.
   */
  lemma BackLinkLabels(from: Option<string>)
    ensures ComputeBackLink(from).text == "Back to Category" <==>
      from.Some? && "/categories/" <= from.value
    ensures ComputeBackLink(from).text == "Back to Categories" <==> from == Some("/categories")
    ensures ComputeBackLink(from).text == "Back to Games" <==>
      from.None? || from == Some("") || from == Some("/products")
    ensures ComputeBackLink(from).text == "Back Home" <==> from == Some("/")
    ensures ComputeBackLink(from).text == "Back" <==>
      from.Some? && from.value !in {"", "/categories", "/products", "/"} &&
      !("/categories/" <= from.value)
  {
    if from.Some? && from.value in {"", "/categories", "/products", "/"} {
      assert !("/categories/" <= from.value);
    }
  }

  /** `products.find`: the first product with the route id, or `None` when no product has it. */
  function Game(id: string): (g: Option<Product>)
    ensures g.None? <==> !HasId(ProductData.Products, id)
    ensures g.Some? ==> g.value.id == id && g.value in ProductData.Products
  {
    FindById(ProductData.Products, id)
  }

  /** The page shows "in cart" when there is a game and some cart item has its id. */
  predicate IsInCart(game: Option<Product>, items: seq<Product>)
  {
    game.Some? && HasId(items, game.value.id)
  }

  /** The page's state: its game, fixed by the route, and the "just added" flag. */
  class GameProfile {
    const game: Option<Product>
    var justAdded: bool

    constructor (id: string)
      ensures game == Game(id) && !justAdded
    {
      game := Game(id);
      justAdded := false;
    }

    /**
     * The cart button: with no game nothing happens; a game already in the
     * cart is removed by id; otherwise it is added and flagged as just added.
     * Either way the cart ends up as the toggle of the game would leave it.
     */
    method OnCartButtonClick(cart: CartState)
      modifies this, cart
      ensures game.None? ==> cart.items == old(cart.items) && justAdded == old(justAdded)
      ensures IsInCart(game, old(cart.items)) ==>
        cart.items == Without(old(cart.items), game.value.id) && justAdded == old(justAdded)
      ensures game.Some? && !IsInCart(game, old(cart.items)) ==>
        cart.items == old(cart.items) + [game.value] && justAdded
      ensures game.Some? ==> cart.items == Toggle(old(cart.items), game.value)
      ensures game.Some? ==> IsInCart(game, cart.items) == !IsInCart(game, old(cart.items))
      ensures DistinctIds(old(cart.items)) ==> DistinctIds(cart.items)
    {
      if game.None? {
        return;
      }
      if IsInCart(game, cart.items) {
        cart.RemoveFromCart(game.value.id);
        return;
      }
      cart.AddToCart(game.value);
      assert HasId(cart.items, game.value.id) by {
        assert cart.items[|cart.items| - 1] == game.value;
      }
      justAdded := true;
    }
  }
}
