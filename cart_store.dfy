// The cart provider of src/hooks/cart.tsx: the in-memory `products` state
// and the snapshot each operation writes under the storage key
// "@GoMarketplace". The storage is reduced to one abstract value, `stored`:
// None while nothing has been written, Some(list) once a list has been
// written. Serialisation is taken to reproduce the list exactly.
module CartStore {
  import opened CartItems

  datatype Option<T> = None | Some(value: T)

  /** The list the source's `addToCart` writes to storage: the merged list, but the
      list from BEFORE the append on the new-item branch. `CartProvider.AddToCart`'s
      contract states the same against the method body; this function lets the
      lemmas below speak of it without a provider. */
  function AddToCartSnapshot(ps: seq<Product>, item: Item): seq<Product> {
    if |FilterById(ps, item.id)| > 0 then AddToCart(ps, item) else ps
  }

  /** On the merge branch the snapshot is the list set into state. */
  lemma MergeSnapshotIsCurrent(ps: seq<Product>, item: Item)
    requires HasId(ps, item.id)
    ensures AddToCartSnapshot(ps, item) == AddToCart(ps, item)
  {
    FilterByIdFinds(ps, item.id);
  }

  /** On the new-item branch the snapshot is the old list, one entry short of the list set into state. */
  lemma NewItemSnapshotIsStale(ps: seq<Product>, item: Item)
    requires !HasId(ps, item.id)
    ensures AddToCart(ps, item) != ps
    ensures AddToCartSnapshot(ps, item) == ps
  {
    FilterByIdFinds(ps, item.id);
    assert |AddToCart(ps, item)| == |ps| + 1;
  }

  /** The first add into an empty cart stores an empty list while memory holds one line item. */
  lemma FirstAddStoresEmptyCart(item: Item)
    ensures AddToCart([], item) == [NewLine(item)]
    ensures AddToCartSnapshot([], item) == []
  {
  }

  class CartProvider {
    /** The `products` state. */
    var products: seq<Product>
    /** The value last written under the storage key, if any. */
    var stored: Option<seq<Product>>

    /** The cart invariants: unique ids, every quantity at least 1. */
    predicate Valid()
      reads this
    {
      Unique(products) && Positive(products)
    }

    /** Storage holds exactly the in-memory list. */
    predicate Synced()
      reads this
    {
      stored == Some(products)
    }

    /** A provider starts with an empty cart over whatever storage already holds. */
    constructor (persisted: Option<seq<Product>>)
      ensures products == [] && stored == persisted
      ensures Valid()
    {
      products := [];
      stored := persisted;
    }

    /** The startup load: a stored list, if there is one, replaces `products`. */
    method LoadProducts()
      modifies this
      ensures stored == old(stored)
      ensures products == if stored.Some? then stored.value else old(products)
      ensures stored.Some? ==> Synced()
      ensures (if stored.Some? then Unique(stored.value) && Positive(stored.value) else old(Valid()))
              ==> Valid()
    {
      if stored.Some? {
        products := stored.value;
      }
    }

    /** `addToCart` as written: the new-item branch stores the list from before the append. */
    method AddToCart(item: Item)
      modifies this
      ensures products == CartItems.AddToCart(old(products), item)
      ensures stored == Some(AddToCartSnapshot(old(products), item))
      ensures HasId(old(products), item.id) ==> Synced()
      ensures !HasId(old(products), item.id) ==> stored == Some(old(products)) && !Synced()
      ensures old(Valid()) ==> Valid()
      ensures old(Valid()) ==> stored.Some? && Unique(stored.value) && Positive(stored.value)
    {
      FilterByIdFinds(products, item.id);
      if Valid() {
        AddToCartKeepsUnique(products, item);
        AddToCartKeepsPositive(products, item);
      }
      if !HasId(products, item.id) {
        NewItemSnapshotIsStale(products, item);
      }
      if |FilterById(products, item.id)| > 0 {
        var updated := Adjust(products, item.id, 1);
        products := updated;
        stored := Some(updated);
        return;
      }
      var previous := products;
      products := products + [NewLine(item)];
      stored := Some(previous);
    }

    /** `addToCart` corrected to store exactly the list it sets into state. */
    method AddToCartSynced(item: Item)
      modifies this
      ensures products == CartItems.AddToCart(old(products), item)
      ensures Synced()
      ensures old(Valid()) ==> Valid()
      ensures old(Valid()) ==> stored.Some? && Unique(stored.value) && Positive(stored.value)
    {
      if Valid() {
        AddToCartKeepsUnique(products, item);
        AddToCartKeepsPositive(products, item);
      }
      var updated := CartItems.AddToCart(products, item);
      products := updated;
      stored := Some(updated);
    }

    /** `increment`: raise the matching entry and store the result. */
    method Increment(id: string)
      modifies this
      ensures products == CartItems.Increment(old(products), id)
      ensures Synced()
      ensures old(Valid()) ==> Valid()
      ensures old(Valid()) ==> stored.Some? && Unique(stored.value) && Positive(stored.value)
    {
      if Valid() {
        IncrementKeepsUnique(products, id);
        IncrementKeepsPositive(products, id);
      }
      var updated := Adjust(products, id, 1);
      products := updated;
      stored := Some(updated);
    }

    /** `decrement`: lower the matching entry, drop the zeros, and store the result. */
    method Decrement(id: string)
      modifies this
      ensures products == CartItems.Decrement(old(products), id)
      ensures Synced()
      ensures old(Valid()) ==> Valid()
      ensures old(Valid()) ==> stored.Some? && Unique(stored.value) && Positive(stored.value)
    {
      if Valid() {
        DecrementKeepsUnique(products, id);
        DecrementKeepsPositive(products, id);
      }
      var updated := DropZeros(Adjust(products, id, -1));
      products := updated;
      stored := Some(updated);
    }
  }
}
