// The line-item transforms of the shopping cart in src/hooks/cart.tsx:
// the list a cart operation computes from the current list, before it is
// set into state and written to storage. Every transform here is a pure
// function over a sequence of line items, as the source writes it with
// `filter`, `map` and spread-append.
module CartItems {

  /** A unit price. The cart never computes with it, so it stays opaque. */
  type Price = int

  /** One cart line item (the `Product` record). */
  datatype Product = Product(
    id: string,
    title: string,
    imageUrl: string,
    price: Price,
    quantity: int)

  /** The payload of `addToCart`: a product without its quantity. */
  datatype Item = Item(id: string, title: string, imageUrl: string, price: Price)

  /** One call a cart consumer can make. */
  datatype Action = AddItem(item: Item) | IncrementId(id: string) | DecrementId(id: string)

  // ---------------------------------------------------------------------
  // Invariants of a cart

  /** Some line item carries `id`. */
  predicate HasId(ps: seq<Product>, id: string) {
    exists i :: 0 <= i < |ps| && ps[i].id == id
  }

  /** At most one line item per `id`. */
  predicate Unique(ps: seq<Product>) {
    forall i, j :: 0 <= i < j < |ps| ==> ps[i].id != ps[j].id
  }

  /** Every line item has quantity at least 1. */
  predicate Positive(ps: seq<Product>) {
    forall i :: 0 <= i < |ps| ==> ps[i].quantity >= 1
  }

  // ---------------------------------------------------------------------
  // Building blocks

  /** The entries whose `id` equals `id`, in order (the lookup `addToCart` makes). */
  function FilterById(ps: seq<Product>, id: string): seq<Product> {
    if ps == [] then []
    else (if ps[0].id == id then [ps[0]] else []) + FilterById(ps[1..], id)
  }

  /** The new entry `addToCart` appends for an item not yet in the cart. */
  function NewLine(item: Item): Product {
    Product(item.id, item.title, item.imageUrl, item.price, 1)
  }

  /** The `map` callback: add `delta` to the quantity of an entry with a matching `id`. */
  function Bump(p: Product, id: string, delta: int): Product {
    if p.id == id then p.(quantity := p.quantity + delta) else p
  }

  /** `map` of `Bump` over the cart. */
  function Adjust(ps: seq<Product>, id: string, delta: int): seq<Product> {
    if ps == [] then [] else [Bump(ps[0], id, delta)] + Adjust(ps[1..], id, delta)
  }

  /** `filter` keeping the entries whose quantity is not 0. */
  function DropZeros(ps: seq<Product>): seq<Product> {
    if ps == [] then []
    else (if ps[0].quantity == 0 then [] else [ps[0]]) + DropZeros(ps[1..])
  }

  // ---------------------------------------------------------------------
  // The three operations

  /** The list `addToCart` sets into state: merge by `id`, else append with quantity 1. */
  function AddToCart(ps: seq<Product>, item: Item): seq<Product> {
    if |FilterById(ps, item.id)| > 0 then Adjust(ps, item.id, 1)
    else ps + [NewLine(item)]
  }

  /** The list `increment` sets into state. */
  function Increment(ps: seq<Product>, id: string): seq<Product> {
    Adjust(ps, id, 1)
  }

  /** The list `decrement` sets into state: lower the match, then drop every zero. */
  function Decrement(ps: seq<Product>, id: string): seq<Product> {
    DropZeros(Adjust(ps, id, -1))
  }

  /** The cart after one consumer call. */
  function Step(ps: seq<Product>, a: Action): seq<Product> {
    match a
    case AddItem(item) => AddToCart(ps, item)
    case IncrementId(id) => Increment(ps, id)
    case DecrementId(id) => Decrement(ps, id)
  }

  /** The cart after a series of consumer calls, first call first. */
  function Run(ps: seq<Product>, actions: seq<Action>): seq<Product>
    decreases |actions|
  {
    if actions == [] then ps else Run(Step(ps, actions[0]), actions[1..])
  }

  // ---------------------------------------------------------------------
  // Lemmas about the building blocks

  /** The lookup finds something exactly when an entry has the id, and finds only such entries. */
  lemma {:induction false} FilterByIdFinds(ps: seq<Product>, id: string)
    ensures |FilterById(ps, id)| > 0 <==> HasId(ps, id)
    ensures forall p :: p in FilterById(ps, id) ==> p in ps && p.id == id
  {
    if ps != [] {
      FilterByIdFinds(ps[1..], id);
      if HasId(ps, id) && ps[0].id != id {
        var i :| 0 <= i < |ps| && ps[i].id == id;
        assert ps[1..][i - 1].id == id;
      }
      if HasId(ps[1..], id) {
        var i :| 0 <= i < |ps[1..]| && ps[1..][i].id == id;
        assert ps[i + 1].id == id;
      }
    }
  }

  /** `Adjust` keeps length and order and applies `Bump` to each entry in place. */
  lemma {:induction false} AdjustAt(ps: seq<Product>, id: string, delta: int)
    ensures |Adjust(ps, id, delta)| == |ps|
    ensures forall k :: 0 <= k < |ps| ==> Adjust(ps, id, delta)[k] == Bump(ps[k], id, delta)
  {
    if ps != [] {
      AdjustAt(ps[1..], id, delta);
      forall k | 0 <= k < |ps| ensures Adjust(ps, id, delta)[k] == Bump(ps[k], id, delta) {
        if k > 0 {
          assert Adjust(ps, id, delta)[k] == Adjust(ps[1..], id, delta)[k - 1];
        }
      }
    }
  }

  /** With unique ids, `Adjust` changes exactly the one entry carrying `id`. */
  lemma AdjustUnique(ps: seq<Product>, id: string, delta: int, k: nat)
    requires Unique(ps) && k < |ps| && ps[k].id == id
    ensures Adjust(ps, id, delta) == ps[k := ps[k].(quantity := ps[k].quantity + delta)]
  {
    AdjustAt(ps, id, delta);
  }

  /** `Adjust` on an id no entry carries changes nothing. */
  lemma AdjustAbsent(ps: seq<Product>, id: string, delta: int)
    requires !HasId(ps, id)
    ensures Adjust(ps, id, delta) == ps
  {
    AdjustAt(ps, id, delta);
  }

  /** `Adjust` keeps every id where it was, so it keeps ids unique and keeps which ids are present. */
  lemma AdjustKeepsIds(ps: seq<Product>, id: string, delta: int)
    ensures Unique(Adjust(ps, id, delta)) <==> Unique(ps)
    ensures forall x :: HasId(Adjust(ps, id, delta), x) <==> HasId(ps, x)
  {
    AdjustAt(ps, id, delta);
    var r := Adjust(ps, id, delta);
    assert forall k :: 0 <= k < |ps| ==> r[k].id == ps[k].id;
    forall x ensures HasId(r, x) <==> HasId(ps, x) {
      if HasId(ps, x) {
        var i :| 0 <= i < |ps| && ps[i].id == x;
        assert r[i].id == x;
      }
    }
  }

  /** The filter keeps an entry exactly when it is in the input with a quantity other than 0. */
  lemma {:induction false} DropZerosExact(ps: seq<Product>)
    ensures forall p :: p in DropZeros(ps) <==> p in ps && p.quantity != 0
  {
    if ps != [] {
      DropZerosExact(ps[1..]);
      assert ps == [ps[0]] + ps[1..];
    }
  }

  /** The filter keeps order: it distributes over concatenation. */
  lemma {:induction false} DropZerosAppend(a: seq<Product>, b: seq<Product>)
    ensures DropZeros(a + b) == DropZeros(a) + DropZeros(b)
  {
    if a != [] {
      DropZerosAppend(a[1..], b);
      assert (a + b)[1..] == a[1..] + b;
    } else {
      assert a + b == b;
    }
  }

  /** The filter is the identity on a list without zero quantities. */
  lemma {:induction false} DropZerosNoZeros(ps: seq<Product>)
    requires forall i :: 0 <= i < |ps| ==> ps[i].quantity != 0
    ensures DropZeros(ps) == ps
  {
    if ps != [] {
      DropZerosNoZeros(ps[1..]);
    }
  }

  /** The filter keeps ids unique. */
  lemma {:induction false} DropZerosKeepsUnique(ps: seq<Product>)
    requires Unique(ps)
    ensures Unique(DropZeros(ps))
  {
    if ps != [] {
      var tail := ps[1..];
      assert Unique(tail) by {
        forall i, j | 0 <= i < j < |tail| ensures tail[i].id != tail[j].id {
          assert ps[i + 1] == tail[i] && ps[j + 1] == tail[j];
        }
      }
      DropZerosKeepsUnique(tail);
      DropZerosExact(tail);
      var d := DropZeros(tail);
      var r := DropZeros(ps);
      if ps[0].quantity != 0 {
        assert r == [ps[0]] + d;
        forall i, j | 0 <= i < j < |r| ensures r[i].id != r[j].id {
          if i == 0 {
            assert r[j] == d[j - 1] && d[j - 1] in tail;
            var m :| 0 <= m < |tail| && tail[m] == d[j - 1];
            assert ps[m + 1] == tail[m];
          } else {
            assert r[i] == d[i - 1] && r[j] == d[j - 1];
          }
        }
      } else {
        assert r == d;
      }
    }
  }

  // ---------------------------------------------------------------------
  // addToCart

  /** Merge: with unique ids, the entry carrying the item's id gains exactly 1; nothing else changes. */
  lemma AddToCartMerge(ps: seq<Product>, item: Item, k: nat)
    requires Unique(ps) && k < |ps| && ps[k].id == item.id
    ensures AddToCart(ps, item) == ps[k := ps[k].(quantity := ps[k].quantity + 1)]
  {
    FilterByIdFinds(ps, item.id);
    AdjustUnique(ps, item.id, 1, k);
  }

  /** Merge, for any cart: the length is kept and every entry with the item's id gains 1. */
  lemma AddToCartMergeAt(ps: seq<Product>, item: Item)
    requires HasId(ps, item.id)
    ensures |AddToCart(ps, item)| == |ps|
    ensures forall k :: 0 <= k < |ps| ==> AddToCart(ps, item)[k] == Bump(ps[k], item.id, 1)
  {
    FilterByIdFinds(ps, item.id);
    AdjustAt(ps, item.id, 1);
  }

  /** New item: exactly one entry is appended, with quantity 1 and the item's fields. */
  lemma AddToCartAppends(ps: seq<Product>, item: Item)
    requires !HasId(ps, item.id)
    ensures |AddToCart(ps, item)| == |ps| + 1
    ensures AddToCart(ps, item)[..|ps|] == ps
    ensures AddToCart(ps, item)[|ps|] == Product(item.id, item.title, item.imageUrl, item.price, 1)
  {
    FilterByIdFinds(ps, item.id);
  }

  /** After `addToCart` the item's id is in the cart, and no other id came or went. */
  lemma AddToCartIds(ps: seq<Product>, item: Item)
    ensures forall x :: HasId(AddToCart(ps, item), x) <==> HasId(ps, x) || x == item.id
  {
    FilterByIdFinds(ps, item.id);
    AdjustKeepsIds(ps, item.id, 1);
    var r := AddToCart(ps, item);
    if !HasId(ps, item.id) {
      assert r == ps + [NewLine(item)];
      assert r[|ps|].id == item.id;
      forall x | HasId(ps, x) ensures HasId(r, x) {
        var i :| 0 <= i < |ps| && ps[i].id == x;
        assert r[i] == ps[i];
      }
      forall x | HasId(r, x) && x != item.id ensures HasId(ps, x) {
        var i :| 0 <= i < |r| && r[i].id == x;
        assert i < |ps| && r[i] == ps[i];
      }
    }
  }

  /** `addToCart` never creates a duplicate line item. */
  lemma AddToCartKeepsUnique(ps: seq<Product>, item: Item)
    requires Unique(ps)
    ensures Unique(AddToCart(ps, item))
  {
    FilterByIdFinds(ps, item.id);
    AdjustKeepsIds(ps, item.id, 1);
    if !HasId(ps, item.id) {
      var r := AddToCart(ps, item);
      forall i, j | 0 <= i < j < |r| ensures r[i].id != r[j].id {
        if j == |ps| {
          assert r[i] == ps[i];
        } else {
          assert r[i] == ps[i] && r[j] == ps[j];
        }
      }
    }
  }

  /** `addToCart` keeps every quantity at least 1. */
  lemma AddToCartKeepsPositive(ps: seq<Product>, item: Item)
    requires Positive(ps)
    ensures Positive(AddToCart(ps, item))
  {
    FilterByIdFinds(ps, item.id);
    AdjustAt(ps, item.id, 1);
    var r := AddToCart(ps, item);
    if !HasId(ps, item.id) {
      forall i | 0 <= i < |r| ensures r[i].quantity >= 1 {
        if i < |ps| {
          assert r[i] == ps[i];
        }
      }
    }
  }

  // ---------------------------------------------------------------------
  // increment

  /** `increment` keeps length and order and raises exactly the entries carrying `id` by 1. */
  lemma IncrementAt(ps: seq<Product>, id: string)
    ensures |Increment(ps, id)| == |ps|
    ensures forall k :: 0 <= k < |ps| ==>
      Increment(ps, id)[k] ==
        if ps[k].id == id then ps[k].(quantity := ps[k].quantity + 1) else ps[k]
  {
    AdjustAt(ps, id, 1);
  }

  /** With unique ids, `increment` changes exactly the one entry carrying `id`. */
  lemma IncrementUnique(ps: seq<Product>, id: string, k: nat)
    requires Unique(ps) && k < |ps| && ps[k].id == id
    ensures Increment(ps, id) == ps[k := ps[k].(quantity := ps[k].quantity + 1)]
  {
    AdjustUnique(ps, id, 1, k);
  }

  /** `increment` of an id no entry carries is the identity. */
  lemma IncrementAbsent(ps: seq<Product>, id: string)
    requires !HasId(ps, id)
    ensures Increment(ps, id) == ps
  {
    AdjustAbsent(ps, id, 1);
  }

  /** `increment` keeps ids unique. */
  lemma IncrementKeepsUnique(ps: seq<Product>, id: string)
    requires Unique(ps)
    ensures Unique(Increment(ps, id))
  {
    AdjustKeepsIds(ps, id, 1);
  }

  /** `increment` keeps every quantity at least 1. */
  lemma IncrementKeepsPositive(ps: seq<Product>, id: string)
    requires Positive(ps)
    ensures Positive(Increment(ps, id))
  {
    AdjustAt(ps, id, 1);
  }

  // ---------------------------------------------------------------------
  // decrement

  /** The filter after the `map` removes exactly the zeros: an entry survives iff it is nonzero after lowering. */
  lemma DecrementExact(ps: seq<Product>, id: string)
    ensures forall p :: p in Decrement(ps, id) <==> p in Adjust(ps, id, -1) && p.quantity != 0
  {
    DropZerosExact(Adjust(ps, id, -1));
  }

  /** An entry at quantity 1 disappears; every other entry stays, in order. */
  lemma DecrementRemoves(ps: seq<Product>, id: string, k: nat)
    requires Unique(ps) && Positive(ps) && k < |ps| && ps[k].id == id && ps[k].quantity == 1
    ensures Decrement(ps, id) == ps[..k] + ps[k + 1..]
  {
    AdjustUnique(ps, id, -1, k);
    var lowered := ps[k := ps[k].(quantity := 0)];
    assert lowered == ps[..k] + [lowered[k]] + ps[k + 1..];
    DropZerosAppend(ps[..k] + [lowered[k]], ps[k + 1..]);
    DropZerosAppend(ps[..k], [lowered[k]]);
    DropZerosNoZeros(ps[..k]);
    DropZerosNoZeros(ps[k + 1..]);
  }

  /** An entry above quantity 1 stays where it is, 1 lower; nothing else changes. */
  lemma DecrementLowers(ps: seq<Product>, id: string, k: nat)
    requires Unique(ps) && Positive(ps) && k < |ps| && ps[k].id == id && ps[k].quantity > 1
    ensures Decrement(ps, id) == ps[k := ps[k].(quantity := ps[k].quantity - 1)]
  {
    AdjustUnique(ps, id, -1, k);
    DropZerosNoZeros(ps[k := ps[k].(quantity := ps[k].quantity - 1)]);
  }

  /** `decrement` of an absent id leaves a cart with positive quantities unchanged. */
  lemma DecrementAbsent(ps: seq<Product>, id: string)
    requires Positive(ps) && !HasId(ps, id)
    ensures Decrement(ps, id) == ps
  {
    AdjustAbsent(ps, id, -1);
    DropZerosNoZeros(ps);
  }

  /** `decrement` keeps ids unique. */
  lemma DecrementKeepsUnique(ps: seq<Product>, id: string)
    requires Unique(ps)
    ensures Unique(Decrement(ps, id))
  {
    AdjustKeepsIds(ps, id, -1);
    DropZerosKeepsUnique(Adjust(ps, id, -1));
  }

  /** `decrement` keeps every quantity at least 1, because the filter removes exactly the zeros. */
  lemma DecrementKeepsPositive(ps: seq<Product>, id: string)
    requires Positive(ps)
    ensures Positive(Decrement(ps, id))
  {
    var lowered := Adjust(ps, id, -1);
    AdjustAt(ps, id, -1);
    assert forall p :: p in lowered ==> p.quantity >= 0;
    DropZerosExact(lowered);
    var r := Decrement(ps, id);
    forall i | 0 <= i < |r| ensures r[i].quantity >= 1 {
      assert r[i] in r;
    }
  }

  // ---------------------------------------------------------------------
  // Any series of calls

  /** Whatever the consumer calls, in whatever order, ids stay unique. */
  lemma {:induction false} RunKeepsUnique(ps: seq<Product>, actions: seq<Action>)
    requires Unique(ps)
    ensures Unique(Run(ps, actions))
    decreases |actions|
  {
    if actions != [] {
      match actions[0] {
        case AddItem(item) => AddToCartKeepsUnique(ps, item);
        case IncrementId(id) => IncrementKeepsUnique(ps, id);
        case DecrementId(id) => DecrementKeepsUnique(ps, id);
      }
      RunKeepsUnique(Step(ps, actions[0]), actions[1..]);
    }
  }

  /** Whatever the consumer calls, in whatever order, every quantity stays at least 1. */
  lemma {:induction false} RunKeepsPositive(ps: seq<Product>, actions: seq<Action>)
    requires Positive(ps)
    ensures Positive(Run(ps, actions))
    decreases |actions|
  {
    if actions != [] {
      match actions[0] {
        case AddItem(item) => AddToCartKeepsPositive(ps, item);
        case IncrementId(id) => IncrementKeepsPositive(ps, id);
        case DecrementId(id) => DecrementKeepsPositive(ps, id);
      }
      RunKeepsPositive(Step(ps, actions[0]), actions[1..]);
    }
  }
}
