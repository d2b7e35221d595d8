# Shopping-cart line items (goMarketPlace `src/hooks/cart.tsx`)

This project models the cart provider of the goMarketPlace mobile app. The
cart is an ordered list of `Product` line items. Each item has an id, a
title, an image URL, a price and a quantity. Consumers call three
operations:

- `addToCart` merges by id. It raises the quantity of an existing entry,
  or appends a new entry with quantity 1.
- `increment` raises the quantity of the matching entry.
- `decrement` lowers the quantity of the matching entry, then drops every
  entry whose quantity is 0.

After each operation the provider writes a snapshot of the cart under the
storage key `@GoMarketplace`. At startup it loads that snapshot, if there is
one, into memory.

The project has two files:

- `cart_items.dfy` holds module `CartItems`. It contains the pure list
  transforms, which the source writes as `filter`, `map` and spread-append.
  It also holds the cart invariants (ids unique, every quantity at least 1)
  and the lemmas about them.
- `cart_store.dfy` holds module `CartStore`. Its class `CartProvider` has
  the `products` state and the abstract `stored` snapshot. Each method
  assigns the list that the `CartItems` function computes, then assigns the
  snapshot the source writes.

The merge branch of `addToCart` persists the updated list (lines 58-62).
The new-item branch sets the appended list (line 66) and then persists the
old `products` (line 67). `CartProvider.AddToCart` models that
asymmetry. `CartProvider.AddToCartSynced` is the corrected operation.

The code does not assume unique ids. `map` changes every entry with a
matching id, and the filter in `decrement` drops every entry at quantity 0,
whether or not its id matched. The functions model exactly that. The lemmas
with exact shapes (merged, removed, lowered) state the invariants they need
as preconditions.

## Model

| member | source | states |
|---|---|---|
| `CartItems.FilterByIdFinds` | src/hooks/cart.tsx:45-47 | The merge-or-append test finds an entry exactly when some entry carries the item's id, in both directions. Every entry it finds is in the cart and has that id. |
| `CartItems.AdjustAt` | src/hooks/cart.tsx:74-82 | The quantity `map` keeps length and order. It changes every entry with the given id in place, by the given amount, and leaves every other entry as it was. |
| `CartItems.AdjustUnique` | src/hooks/cart.tsx:48-56 | With unique ids, the `map` changes only the one entry carrying the id. The result is the old list with that position updated. |
| `CartItems.AdjustAbsent` | src/hooks/cart.tsx:96-104 | The `map` on an id that no entry carries returns the list unchanged. |
| `CartItems.AdjustKeepsIds` | src/hooks/cart.tsx:74-82 | The `map` keeps the ids unique exactly when they were unique before. The set of ids present is unchanged. |
| `CartItems.DropZerosExact` | src/hooks/cart.tsx:105 | An entry survives the filter if and only if it was in the input with a quantity other than 0. |
| `CartItems.DropZerosAppend` | src/hooks/cart.tsx:105 | The filter keeps relative order: filtering a concatenation gives the concatenation of the filtered parts. |
| `CartItems.DropZerosNoZeros` | src/hooks/cart.tsx:105 | The filter is the identity on a list with no zero quantity. |
| `CartItems.DropZerosKeepsUnique` | src/hooks/cart.tsx:105 | The filter never makes two entries share an id. |
| `CartItems.AddToCartMerge` | src/hooks/cart.tsx:45-63 | In a cart with unique ids, adding an item whose id is present raises that entry's quantity by exactly 1. The length, every other entry and every other field stay the same. |
| `CartItems.AddToCartMergeAt` | src/hooks/cart.tsx:47-56 | For any cart holding the id, adding keeps the length and raises by 1 every entry with that id. All other entries are left as they were. |
| `CartItems.AddToCartAppends` | src/hooks/cart.tsx:66 | Adding an item with a new id appends exactly one entry at the end. That entry has quantity 1 and the item's id, title, image URL and price. The existing prefix is unchanged. |
| `CartItems.AddToCartIds` | src/hooks/cart.tsx:43-70 | After adding, an id is present if and only if it was present before or it is the added item's id. |
| `CartItems.AddToCartKeepsUnique` | src/hooks/cart.tsx:45-66 | Adding never creates a duplicate line item, from any cart whose ids are unique. |
| `CartItems.AddToCartKeepsPositive` | src/hooks/cart.tsx:48-66 | If every quantity is at least 1 before adding, every quantity is still at least 1 after. |
| `CartItems.IncrementAt` | src/hooks/cart.tsx:74-82 | `increment` keeps length and order. It raises every entry with the id by 1 and changes nothing else. |
| `CartItems.IncrementUnique` | src/hooks/cart.tsx:74-82 | With unique ids, `increment` changes only the entry carrying the id, raising its quantity by 1. |
| `CartItems.IncrementAbsent` | src/hooks/cart.tsx:74-82 | `increment` of an id that no entry carries is the identity. |
| `CartItems.IncrementKeepsUnique` | src/hooks/cart.tsx:74-82 | `increment` keeps ids unique. |
| `CartItems.IncrementKeepsPositive` | src/hooks/cart.tsx:76-79 | `increment` keeps every quantity at least 1. |
| `CartItems.DecrementExact` | src/hooks/cart.tsx:95-105 | After `decrement`, an entry is present if and only if it is in the lowered list and its quantity is not 0. The filter removes exactly the zeros. |
| `CartItems.DecrementRemoves` | src/hooks/cart.tsx:95-105 | In a valid cart, `decrement` of an entry at quantity 1 removes that entry. Every other entry stays, in its order. |
| `CartItems.DecrementLowers` | src/hooks/cart.tsx:95-105 | In a valid cart, `decrement` of an entry above quantity 1 keeps it in place with its quantity lowered by 1. Nothing else changes. |
| `CartItems.DecrementAbsent` | src/hooks/cart.tsx:95-105 | `decrement` of an id that no entry carries leaves unchanged a cart whose quantities are all at least 1. |
| `CartItems.DecrementKeepsUnique` | src/hooks/cart.tsx:95-105 | `decrement` keeps ids unique. |
| `CartItems.DecrementKeepsPositive` | src/hooks/cart.tsx:100-105 | `decrement` keeps every quantity at least 1, because lowering reaches at most 0 and the filter removes the zeros. |
| `CartItems.RunKeepsUnique` | src/hooks/cart.tsx:43-114 | Any series of add, increment and decrement calls, starting from a cart with unique ids, leaves the ids unique. |
| `CartItems.RunKeepsPositive` | src/hooks/cart.tsx:43-114 | Any series of calls, starting from a cart with all quantities at least 1, keeps them at least 1. |
| `CartStore.MergeSnapshotIsCurrent` | src/hooks/cart.tsx:58-62 | On the merge branch, the list written to storage is the list set into state. |
| `CartStore.NewItemSnapshotIsStale` | src/hooks/cart.tsx:66-67 | On the new-item branch, the list set into state differs from the list before the call, and the list written to storage is the list before the call. |
| `CartStore.FirstAddStoresEmptyCart` | src/hooks/cart.tsx:66-67 | Adding the first item to an empty cart leaves one entry in memory and an empty list in storage. |
| `CartStore.CartProvider.constructor` | src/hooks/cart.tsx:29 | A provider starts with an empty cart that satisfies the invariants. Storage keeps whatever it already held. |
| `CartStore.CartProvider.LoadProducts` | src/hooks/cart.tsx:31-41 | If storage holds a list, that list replaces `products`, and memory and storage then agree. Otherwise `products` is unchanged. Storage is never written. |
| `CartStore.CartProvider.AddToCart` | src/hooks/cart.tsx:43-70 | `products` becomes the merged-or-appended list. Storage receives the new list on the merge branch and the old list on the new-item branch, so storage is out of sync exactly then. The invariants are preserved, and the written list satisfies them too. |
| `CartStore.CartProvider.AddToCartSynced` | src/hooks/cart.tsx:43-70 | The corrected `addToCart`: the same new `products`, with storage equal to it afterwards. The invariants are preserved, and the written list satisfies them too. |
| `CartStore.CartProvider.Increment` | src/hooks/cart.tsx:72-91 | `products` becomes the incremented list, and storage receives exactly that list. The invariants are preserved, and the written list satisfies them too. |
| `CartStore.CartProvider.Decrement` | src/hooks/cart.tsx:93-114 | `products` becomes the lowered-and-filtered list, and storage receives exactly that list. The invariants are preserved, and the written list satisfies them too. |

## Findings

| source | as written | input that shows it | evidently intended | confidence | as-written member | corrected member |
|---|---|---|---|---|---|---|
| src/hooks/cart.tsx:66-67 | The new-item branch of `addToCart` sets the appended list into state, then writes the old `products` to storage. | Start from an empty cart with no stored value and add any item. Memory holds one entry; storage holds `[]`. A restart before the next operation loses the item. | Write the appended list, as the merge branch, `increment` and `decrement` do. | high; not executed | `CartStore.NewItemSnapshotIsStale` (with `CartStore.CartProvider.AddToCart`) | `CartStore.CartProvider.AddToCartSynced` |

## Left out

- AsyncStorage `getItem`/`setItem` and their asynchrony. Storage is the field `stored`, assigned at the point where the source issues the write. A write that fails, or two writes that complete out of order, are not modelled.
- JSON encoding and decoding. The stored value is the list itself. The encoder is library code that is not part of this model, so no round-trip is proved.
- The loaded value is only checked for presence (`if (all_products)`). A stored empty string, or a malformed value, cannot arise from the writes modelled here. The load does not check the invariants, so `LoadProducts` promises them only when the stored list satisfies them.
- React binding: `createContext`, `useEffect`, `useCallback`, `useMemo` and the Provider rendering. This includes closure staleness: two calls made before a re-render both read the same captured `products`. The model applies calls one after another, each to the latest state.
- The `useCart` error raised outside a provider (lines 124-132). It is a null check on React context.
- `price` and `quantity` are JavaScript numbers. `price` is an opaque `int` and nothing computes with it. `quantity` is an unbounded `int`; floating-point rounding above 2^53 is not modelled.
- Fields beyond id, title, image URL and price that a caller could spread into `addToCart`'s payload are not modelled. The payload type is `Product` without `quantity`.
