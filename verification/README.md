# Pixel Paradise video game store — cart, catalog and search model

This Dafny project models the logic of a small React + Redux video game store. It covers five parts:

- **The cart slice.** The cart is a list of products. `addToCart` toggles a product: it removes every item with the product's id if one is present, and appends the product otherwise. `removeFromCart` filters out an id.
- **The cart selectors.** These give the item list, the item count and the total cost, which is a left fold of the prices.
- **The product table and its derived `categories` list.** `categories` holds the distinct categories in order of first appearance.
- **The header's game search.** The query is trimmed and lower-cased, matched against product names by substring, and cut to ten results. A highlighted result moves with ArrowDown/ArrowUp with wrap-around, and Enter or a click picks a result.
- **The page-level rules.**
  - The game page's back-link classifier and its add/remove cart button.
  - The category page's known-category check, its filtered product list and its add-only button.
  - The products page's grouping of the table by category.

The cart follows `src/features/cart/cartSlice.ts` as written. A cart item is just a `Product` (`cartSlice.ts:25`). There is no quantity, and the only commands are the toggling `addToCart` and `removeFromCart`. The header comment of `CartPage.tsx` (lines 4-6) lists increase/decrease quantity buttons, and `CartOverlay.tsx:15-19` and `CartPage.tsx:19-23` import `increaseQuantity`/`decreaseQuantity`. The slice defines and exports neither (`cartSlice.ts:56`), so the model has no quantities and no such commands.

Modules:

- `Wrappers`: `Option`.
- `Seqs`: a generic order-preserving filter, subsequences and the first-occurrence dedup.
- `CartSlice`: `Product`, the pure `Toggle`/`Without` specifications and the `CartState` class whose methods are the reducers.
- `Selectors`.
- `ProductData`: the table, with prices in integer cents.
- `AppHeader`: the search functions and the `HeaderSearch` class holding `query`, `isSearchOpen` and `highlightedIndex`.
- `GameProfilePage`, `CategoryProductsPage` and `ProductsPage`.

Event handlers that change component state are methods of a class per component. Each is proved against the pure functions that specify it.

## Model

| member | source | states |
|---|---|---|
| CartSlice.FindById | src/features/cart/cartSlice.ts:41 | `find` by id is absent exactly when no item has the id; otherwise it is the first item carrying the id |
| CartSlice.HasId | src/pages/GameProfilePage.tsx:34 | `items.some(item => item.id === id)`: some item carries the id (also `CategoryProductsPage.tsx:90`) |
| CartSlice.Without | src/features/cart/cartSlice.ts:51 | `items.filter(item => item.id !== id)`, never longer than the cart (its full meaning is `WithoutSpec`) |
| CartSlice.Toggle | src/features/cart/cartSlice.ts:40-47 | the state `addToCart(p)` leaves: afterwards the id is present exactly when it was absent before |
| CartSlice.CartState.constructor | src/features/cart/cartSlice.ts:31-33 | the initial cart is empty (so its ids are distinct) |
| CartSlice.CartState.AddToCart | src/features/cart/cartSlice.ts:40-47 | the new items are the toggle of the old ones: a present id is removed entirely, an absent product is appended at the end with the earlier items unchanged; distinct ids are preserved |
| CartSlice.CartState.RemoveFromCart | src/features/cart/cartSlice.ts:50-52 | afterwards no item has the id, the others stay in order, a missing id leaves the cart unchanged, distinct ids are preserved |
| CartSlice.WithoutSpec | src/features/cart/cartSlice.ts:51 | filtering out an id leaves no item with it, keeps every other item, adds nothing, and keeps the survivors' relative order (a subsequence) |
| CartSlice.WithoutAbsentIsIdentity | src/features/cart/cartSlice.ts:51 | removing an id no item has leaves the cart unchanged |
| CartSlice.WithoutIdempotent | src/features/cart/cartSlice.ts:51 | removing the same id twice is removing it once |
| CartSlice.WithoutConcat | src/features/cart/cartSlice.ts:51 | removal by id acts on the two halves of a cart independently |
| CartSlice.WithoutKeepsDistinctIds | src/features/cart/cartSlice.ts:43 | removal by id keeps the ids of a cart pairwise distinct |
| CartSlice.WithoutSingle | src/features/cart/cartSlice.ts:43 | in a cart with distinct ids, removing an item's id deletes exactly that one position |
| CartSlice.ToggleAbsentAppends | src/features/cart/cartSlice.ts:46 | adding an absent product grows the cart by one, earlier items unchanged and the product last |
| CartSlice.TogglePresentRemoves | src/features/cart/cartSlice.ts:41-44 | adding a present product leaves no item with its id and keeps the other items in order |
| CartSlice.ToggleInvolution | src/features/cart/cartSlice.ts:40-47 | from a cart without the product's id, adding it twice gives back exactly the original cart |
| CartSlice.ToggleKeepsDistinctIds | src/features/cart/cartSlice.ts:40-47 | the toggle keeps the ids of a cart pairwise distinct |
| Selectors.ReducePrices | src/features/cart/selectors.ts:18 | the left fold of the prices from an accumulator equals the accumulator plus the sum of the prices |
| Selectors.PriceSum | src/features/cart/selectors.ts:18 | the independent right-recursive sum of the prices; 0 when every price is 0 |
| Selectors.SelectCartItems | src/features/cart/selectors.ts:11 | returns the cart's items unchanged |
| Selectors.SelectTotalItems | src/features/cart/selectors.ts:14 | equals the number of items in the cart |
| Selectors.SelectTotalCost | src/features/cart/selectors.ts:17-18 | equals the sum of the item prices; 0 for an empty cart |
| Selectors.PriceSumSnoc | src/features/cart/selectors.ts:18 | the total of `items + [p]` is the total of `items` plus `p.price` |
| Selectors.PriceSumConcat | src/features/cart/selectors.ts:18 | the total of a concatenation is the sum of the totals |
| Selectors.PriceSumBounds | src/features/cart/selectors.ts:18 | with no negative price the total is at least 0 and at least the price of every single item |
| Selectors.PriceSumWithoutSingle | src/features/cart/selectors.ts:18 | in a cart with distinct ids, removing an item's id lowers the total by exactly its price |
| Selectors.ToggleChangesTotals | src/features/cart/selectors.ts:14-18 | on a cart with distinct ids, `addToCart(p)` raises total and count by `p.price` and 1 when `p` is absent, and lowers them by the removed item's price and 1 when present |
| Selectors.PriceSumWithout | src/features/cart/selectors.ts:18 | `removeFromCart(id)` lowers the total by exactly the prices of the items carrying `id` |
| Selectors.PriceSumOfId | src/features/cart/selectors.ts:18 | the prices of the items with an id; 0 when no item has it |
| Seqs.Filter | src/features/cart/cartSlice.ts:51 | `Array.prototype.filter`, never longer than its input (meaning in `FilterMembers`, `FilterIsSubsequence`) |
| Seqs.FilterMembers | src/features/cart/cartSlice.ts:51 | the filter keeps exactly the elements that pass, from the input |
| Seqs.Dedup | src/data/products.ts:236 | `Array.from(new Set(s))`, never longer than its input |
| Seqs.DedupMembers | src/data/products.ts:236 | the dedup holds exactly the values of its input (both directions) |
| Seqs.DedupNoDuplicates | src/data/products.ts:236 | the dedup has no value twice |
| Seqs.DedupFirstOccurrenceOrder | src/data/products.ts:236 | the dedup lists values in the order of their first occurrence in the input |
| ProductData.CategoriesOf | src/data/products.ts:236 | `products.map(p => p.category)`: one category per product, position by position |
| ProductData.Products | src/data/products.ts:11-233 | the product table: ids, names, categories as written, prices in cents |
| ProductData.Categories | src/data/products.ts:236 | the deduplicated product categories (see `CategoriesSpec`, `CategoriesValue`) |
| ProductData.InCategory | src/pages/CategoryProductsPage.tsx:35 | every kept product has the category and comes from the catalog; every catalog product of the category is kept |
| ProductData.ProductIdsDistinct | src/data/products.ts:13-232 | the 24 product ids of the table are pairwise distinct |
| ProductData.ProductPricesPositive | src/data/products.ts:13-232 | every price of the table is strictly positive |
| ProductData.CategoriesSpec | src/data/products.ts:236 | `categories` has no duplicates, contains every product's category, lists only product categories, in order of first occurrence |
| ProductData.CategoriesValue | src/data/products.ts:11-236 | for the table, `categories` is exactly RPG, Indie, Action |
| AppHeader.Trim | src/components/AppHeader.tsx:35 | the trimmed query is a contiguous piece of the query with only white space before and after it, neither starting nor ending with white space, and empty exactly when the query is all white space |
| AppHeader.TrimIdempotent | src/components/AppHeader.tsx:35 | trimming twice is trimming once |
| AppHeader.ToLower | src/components/AppHeader.tsx:35 | lower-casing keeps the length, maps every letter A-Z to its lower-case form (code point plus 32), leaves no upper-case letter and keeps every other character |
| AppHeader.ToLowerIdempotent | src/components/AppHeader.tsx:35 | lower-casing twice is lower-casing once |
| AppHeader.Contains | src/components/AppHeader.tsx:38 | `includes`: the empty pattern is always contained, a pattern longer than the text never |
| AppHeader.ContainsIffOccurs | src/components/AppHeader.tsx:38 | `includes` holds exactly when the pattern occurs at some position of the text |
| AppHeader.SearchQuery | src/components/AppHeader.tsx:35-36 | the normalised query is empty exactly when the typed query is empty or white space only |
| AppHeader.Matches | src/components/AppHeader.tsx:37-38 | the name filter over the catalog, never longer than it |
| AppHeader.MatchesSpec | src/components/AppHeader.tsx:37-38 | the name filter keeps exactly the catalog products whose lower-cased name contains the query, in catalog order |
| AppHeader.SearchResults | src/components/AppHeader.tsx:34-40 | an empty or white-space query yields no results; never more than 10 results |
| AppHeader.SearchResultsSpec | src/components/AppHeader.tsx:34-40 | the results are the first min(10, matches) matches in catalog order, each matching the query, a subsequence of the catalog, and complete when fewer than 10 |
| AppHeader.ResetHighlight | src/components/AppHeader.tsx:44 | the reset highlight is 0 when there are results and -1 when there are none |
| AppHeader.JsRem | src/components/AppHeader.tsx:157-160 | JavaScript's `%` takes the dividend's sign, lies strictly within the divisor, and is the identity below it and one subtraction below twice it |
| AppHeader.NextIndex | src/components/AppHeader.tsx:157 | ArrowDown from -1 or a valid index stays in range: one step forward, from the last back to the first |
| AppHeader.PrevIndex | src/components/AppHeader.tsx:160 | ArrowUp from a valid index stays in range: one step back, from the first round to the last |
| AppHeader.NextPrevInverse | src/components/AppHeader.tsx:157-160 | on a valid index ArrowDown and ArrowUp undo each other |
| AppHeader.HeaderSearch.constructor | src/components/AppHeader.tsx:26-29 | starts with an empty query, the panel closed, nothing highlighted, and no results |
| AppHeader.HeaderSearch.Results | src/components/AppHeader.tsx:34-40 | the memoised results of the current query: at most 10, none for a blank query |
| AppHeader.HeaderSearch.SetQuery | src/components/AppHeader.tsx:43-45 | setting the query resets the highlight exactly when the query changed, keeping the highlight in range |
| AppHeader.HeaderSearch.OnChange | src/components/AppHeader.tsx:136-139 | typing sets the query and opens the panel, with the highlight reset on a change |
| AppHeader.HeaderSearch.OnFocus | src/components/AppHeader.tsx:140-146 | focusing opens the panel and changes nothing else |
| AppHeader.HeaderSearch.CloseSearch | src/components/AppHeader.tsx:60-62 | closing the panel changes nothing else |
| AppHeader.HeaderSearch.OnResultHover | src/components/AppHeader.tsx:206 | hovering a shown result highlights it |
| AppHeader.HeaderSearch.OnResultClick | src/components/AppHeader.tsx:207-213 | clicking a result navigates to its id, clears the query, closes the panel and clears the highlight |
| AppHeader.HeaderSearch.OnKeyDown | src/components/AppHeader.tsx:153-170 | nothing happens with the panel closed or no results; arrows wrap the highlight; Enter picks a result only for an in-range highlight, then clears the query and closes; the highlight stays in range |
| GameProfilePage.ComputeBackLink | src/pages/GameProfilePage.tsx:36-58 | a missing or empty `from` links to `/products` labelled "Back to Games"; any non-empty `from` is linked back to as it is |
| GameProfilePage.BackLinkLabels | src/pages/GameProfilePage.tsx:37-57 | each label is produced by exactly its paths: `/categories/…`, `/categories`, missing/empty/`/products`, `/`, and everything else |
| GameProfilePage.Game | src/pages/GameProfilePage.tsx:33 | the game is absent exactly when no product has the route id, and otherwise is a table product with that id |
| GameProfilePage.IsInCart | src/pages/GameProfilePage.tsx:34 | there is a game and some cart item has its id |
| GameProfilePage.GameProfile.constructor | src/pages/GameProfilePage.tsx:31-33 | the page's game is the lookup of the route id, not flagged as just added |
| GameProfilePage.GameProfile.OnCartButtonClick | src/pages/GameProfilePage.tsx:130-139 | no game: nothing changes; game in cart: it is removed by id; otherwise it is appended and flagged; in every case the cart becomes the toggle of the game, and distinct ids are kept |
| CategoryProductsPage.IsKnownCategory | src/pages/CategoryProductsPage.tsx:28-31 | `categories.includes(category)` |
| CategoryProductsPage.KnownCategoryIffListed | src/pages/CategoryProductsPage.tsx:28-31 | a category is known exactly when some product of the catalog has it |
| CategoryProductsPage.CategoryItems | src/pages/CategoryProductsPage.tsx:33-36 | an unknown category shows nothing; every shown product has the category and comes from the catalog |
| CategoryProductsPage.CategoryItemsIsFilter | src/pages/CategoryProductsPage.tsx:33-36 | the shown products are exactly the catalog's products of the category, in catalog order |
| CategoryProductsPage.CategoryPage.constructor | src/pages/CategoryProductsPage.tsx:25 | no id is flagged as just added at first |
| CategoryProductsPage.CategoryPage.HandleAddToCart | src/pages/CategoryProductsPage.tsx:93-96 | a product already in the cart changes nothing; otherwise it is appended and its id added to the flagged set; the cart only grows and ends up holding the product |
| ProductsPage.Grouped | src/pages/ProductsPage.tsx:26-32 | one group per category, in the same order |
| ProductsPage.GroupItems | src/pages/ProductsPage.tsx:30 | a group holds only products of its category, all of them, in catalog order |
| ProductsPage.GroupsDisjoint | src/pages/ProductsPage.tsx:28-31 | with no category listed twice, no product lies in two groups |
| ProductsPage.EveryProductInOneGroup | src/pages/ProductsPage.tsx:28-31 | grouping by the deduplicated categories puts every product in exactly one group |
| ProductsPage.GroupsOf | src/pages/ProductsPage.tsx:26-32 | the grouping by the catalog's own deduplicated categories has no more groups than products |
| ProductsPage.GroupHeadings | src/pages/ProductsPage.tsx:28 | the headings of a grouping are exactly the categories it was given, in order |
| ProductsPage.PageGroups | src/pages/ProductsPage.tsx:26-32 | the page's groups are headed RPG, Indie and Action, in that order |

## Left out

- Rendering, Tailwind classes and layout in every component and page: presentation only.
- Routing (`navigate`, `Link`, `useParams`, `useLocation`) and `encodeURIComponent`/`decodeURIComponent` are library calls.
  - Route parameters and the navigation state's `from` are inputs.
  - A navigation is modelled as the id of the game it goes to.
- Timers are asynchronous scheduling with nothing to state beyond the call they make. They are the clearing of "just added" after 1000 ms (`GameProfilePage.tsx:138`, `CategoryProductsPage.tsx:97-103`) and the 120 ms delayed close on blur (`AppHeader.tsx:147-152`).
  - The callback of the delayed close is `CloseSearch`.
  - The cancelling of a pending close on focus is not modelled.
- The `scrollIntoView` effect (`AppHeader.tsx:48-58`) is DOM I/O.
- The categories drop-down's open flag (`AppHeader.tsx:28,87-122`) and the cart overlay's open flag are hover and visibility state for rendering.
- `formatUsd` / `Intl.NumberFormat` is foreign formatting. Prices are integer cents (59.99 is 5999), so the floating-point rounding of the JavaScript sum is not modelled.
- `Trim`, `ToLower`: ASCII only. The white space trimmed is space, tab, line feed, vertical tab, form feed and carriage return. Only A-Z are lower-cased. Unicode spaces and case mappings are not modelled.
- `ProductData.Products`: names, ids, prices and categories are as in the table. The image URLs and description texts are empty strings because no modelled logic reads them.
- The quantity commands used by `CartOverlay.tsx` and `CartPage.tsx` do not exist in the slice. Those files are rendering only.
- The products page's "Add to Cart" button dispatches `addToCart` directly. That is `CartSlice.CartState.AddToCart`.
- Redux/React wiring (`store.ts`, `hooks.ts`, `main.tsx`) and Immer's immutable updates: each reducer is a method that replaces the cart's `items`. The selectors read the `CartState` rather than the whole root state.
- `RainOverlay.tsx` is canvas animation with randomness and floating point.
- `CartIcon.tsx`, `LandingPage.tsx` and `CategoriesPage.tsx` are static markup. `tailwind.config.js`, `vite.config.ts` and `postcss.config.js` are build configuration.
- `AppHeader.HeaderSearch`: the results are over its `catalog` field, which the constructor sets to the product table, rather than over the imported module constant.
- `AppHeader.PrevIndex`: its range guarantee is stated for a valid highlight (0 to n-1) and not from -1. The class invariant `Valid` keeps the highlight valid whenever there are results, so -1 does not reach ArrowUp.
