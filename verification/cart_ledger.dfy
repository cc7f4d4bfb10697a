/**
 * The cart reducer of the cart context (`cartReducer`) and the figures derived from
 * its item list (`total`, `itemCount`, `isInCart`).
 *
 * The reducer is a pure function from the current item list and an action to the
 * next item list; it never fails. The ledger invariant "one entry per product id,
 * every quantity at least one" is kept by every action except `LOAD_CART`, which
 * installs whatever it is given.
 */
module CartLedger {
  import opened Types
  import opened Seqs

  datatype CartAction =
    | LoadCart(payload: seq<CartItem>)
    | AddItem(product: Product, delta: int)
    | RemoveItem(productId: string)
    | UpdateQty(productId: string, quantity: int)
    | ClearCart

  /** `items.some(i => i.product.id === id)`. */
  predicate IsInCart(items: seq<CartItem>, id: string)
  {
    exists i :: 0 <= i < |items| && items[i].product.id == id
  }

  /** At most one entry per product id. */
  predicate UniqueIds(items: seq<CartItem>)
  {
    DistinctBy(items, ProductIdOf)
  }

  /** Every quantity is at least one. */
  predicate AllPositive(items: seq<CartItem>)
  {
    forall i :: 0 <= i < |items| ==> items[i].quantity >= 1
  }

  predicate WellFormed(items: seq<CartItem>)
  {
    UniqueIds(items) && AllPositive(items)
  }

  /** The entry test used by `REMOVE_ITEM` and by `UPDATE_QTY` with a non-positive quantity. */
  function KeepsOthers(id: string): CartItem -> bool
  {
    (item: CartItem) => item.product.id != id
  }

  /** `items.filter(i => i.product.id !== id)`. */
  function Without(items: seq<CartItem>, id: string): (r: seq<CartItem>)
    ensures forall x :: x in r <==> x in items && x.product.id != id
    ensures !IsInCart(r, id)
    ensures IsSubsequence(r, items)
    ensures |r| == |items| - CountKey(items, ProductIdOf, id)
    ensures !IsInCart(items, id) ==> r == items
  {
    var r := Filter(items, KeepsOthers(id));
    FilterIsSubsequence(items, KeepsOthers(id));
    var matches := (item: CartItem) => item.product.id == id;
    FilterCountsKey(items, matches, ProductIdOf, id);
    FilterComplement(items, matches, KeepsOthers(id));
    assert forall i :: 0 <= i < |r| ==> r[i] in r;
    if !IsInCart(items, id) then
      FilterAllKept(items, KeepsOthers(id), id);
      r
    else r
  }

  lemma {:induction false} FilterAllKept(items: seq<CartItem>, p: CartItem -> bool, id: string)
    requires p == KeepsOthers(id)
    requires !IsInCart(items, id)
    ensures Filter(items, p) == items
  {
    if |items| > 0 {
      FilterAllKept(items[..|items| - 1], p, id);
      assert items[..|items| - 1] + [items[|items| - 1]] == items;
    }
  }

  /** The `map` of `ADD_ITEM`: every entry for `id` gets `delta` more; the rest are kept. */
  function AddToEntries(items: seq<CartItem>, id: string, delta: int): (r: seq<CartItem>)
    ensures |r| == |items|
    ensures forall i :: 0 <= i < |items| ==> r[i].product == items[i].product
    ensures forall i :: 0 <= i < |items| && items[i].product.id != id ==> r[i] == items[i]
    ensures forall i :: 0 <= i < |items| && items[i].product.id == id ==>
              r[i].quantity == items[i].quantity + delta
  {
    seq(|items|, i requires 0 <= i < |items| =>
      if items[i].product.id == id then items[i].(quantity := items[i].quantity + delta) else items[i])
  }

  /** The `map` of `UPDATE_QTY`: every entry for `id` gets quantity `q`; the rest are kept. */
  function SetEntries(items: seq<CartItem>, id: string, q: int): (r: seq<CartItem>)
    ensures |r| == |items|
    ensures forall i :: 0 <= i < |items| ==> r[i].product == items[i].product
    ensures forall i :: 0 <= i < |items| && items[i].product.id != id ==> r[i] == items[i]
    ensures forall i :: 0 <= i < |items| && items[i].product.id == id ==> r[i].quantity == q
  {
    seq(|items|, i requires 0 <= i < |items| =>
      if items[i].product.id == id then items[i].(quantity := q) else items[i])
  }

  /** `cartReducer(items, action)`. */
  function Reduce(items: seq<CartItem>, action: CartAction): (r: seq<CartItem>)
    // LOAD_CART replaces the list wholesale; CLEAR_CART empties it.
    ensures action.LoadCart? ==> r == action.payload
    ensures action.ClearCart? ==> r == []
    // ADD_ITEM on a present id adds to that entry in place; on an absent id it appends.
    ensures action.AddItem? && IsInCart(items, action.product.id) ==>
              |r| == |items| &&
              (forall i :: 0 <= i < |items| ==> r[i].product == items[i].product) &&
              (forall i :: 0 <= i < |items| ==>
                 r[i].quantity == items[i].quantity +
                   (if items[i].product.id == action.product.id then action.delta else 0))
    ensures action.AddItem? && !IsInCart(items, action.product.id) ==>
              r == items + [CartItem(action.product, action.delta)]
    // REMOVE_ITEM and UPDATE_QTY with quantity <= 0 drop exactly the entries for that id.
    ensures (action.RemoveItem? || (action.UpdateQty? && action.quantity <= 0)) ==>
              (forall x :: x in r <==> x in items && x.product.id != action.productId) &&
              IsSubsequence(r, items) &&
              |r| == |items| - CountKey(items, ProductIdOf, action.productId) &&
              (!IsInCart(items, action.productId) ==> r == items)
    // UPDATE_QTY with a positive quantity sets (does not add) the quantity.
    ensures action.UpdateQty? && action.quantity > 0 ==>
              |r| == |items| &&
              (forall i :: 0 <= i < |items| ==> r[i].product == items[i].product) &&
              (forall i :: 0 <= i < |items| ==>
                 r[i].quantity == (if items[i].product.id == action.productId then action.quantity
                                   else items[i].quantity)) &&
              (!IsInCart(items, action.productId) ==> r == items)
  {
    match action
    case LoadCart(payload) => payload
    case AddItem(product, delta) =>
      if IsInCart(items, product.id) then AddToEntries(items, product.id, delta)
      else items + [CartItem(product, delta)]
    case RemoveItem(id) => Without(items, id)
    case UpdateQty(id, q) =>
      if q <= 0 then Without(items, id)
      else
        var r := SetEntries(items, id, q);
        assert !IsInCart(items, id) ==> r == items;
        r
    case ClearCart => []
  }

  /** The actions the cart context issues with the ledger invariant in mind. */
  predicate KeepsShape(action: CartAction)
  {
    match action
    case LoadCart(_) => false
    case AddItem(_, delta) => delta >= 1
    case _ => true
  }

  /** Every action but `LOAD_CART` (and `ADD_ITEM` with a positive amount) keeps the invariant. */
  lemma ReducePreservesWellFormed(items: seq<CartItem>, action: CartAction)
    requires WellFormed(items)
    requires KeepsShape(action)
    ensures WellFormed(Reduce(items, action))
  {
    var r := Reduce(items, action);
    match action
    case AddItem(p, d) =>
      if !IsInCart(items, p.id) {
        forall i, j | 0 <= i < j < |r| ensures ProductIdOf(r[i]) != ProductIdOf(r[j]) {
          if j == |items| {
            assert r[i] == items[i];
          }
        }
      }
    case RemoveItem(id) =>
      FilterKeepsDistinct(items, KeepsOthers(id), ProductIdOf);
      forall i | 0 <= i < |r| ensures r[i].quantity >= 1 {
        assert r[i] in items;
      }
    case UpdateQty(id, q) =>
      if q <= 0 {
        FilterKeepsDistinct(items, KeepsOthers(id), ProductIdOf);
        forall i | 0 <= i < |r| ensures r[i].quantity >= 1 {
          assert r[i] in items;
        }
      }
    case ClearCart =>
  }

  /** `LOAD_CART` installs its payload as is: a list with a zero quantity is accepted. */
  lemma LoadCartDoesNotEnforceShape(p: Product)
    ensures !WellFormed(Reduce([], LoadCart([CartItem(p, 0)])))
  {
    assert Reduce([], LoadCart([CartItem(p, 0)]))[0].quantity == 0;
  }

  /** `LOAD_CART` installs its payload as is: two entries for one product are accepted. */
  lemma LoadCartAllowsDuplicates(p: Product)
    ensures !UniqueIds(Reduce([], LoadCart([CartItem(p, 1), CartItem(p, 2)])))
  {
    var r := Reduce([], LoadCart([CartItem(p, 1), CartItem(p, 2)]));
    assert ProductIdOf(r[0]) == ProductIdOf(r[1]);
  }

  // ---------------------------------------------------------------------------
  // Derived view.

  function LineTotal(item: CartItem): int
  {
    item.product.price * item.quantity
  }

  /** Sum of price times quantity over the entries (the reference for `total`). */
  function Total(items: seq<CartItem>): int
  {
    if |items| == 0 then 0 else Total(items[..|items| - 1]) + LineTotal(items[|items| - 1])
  }

  /** Sum of the quantities (the reference for `itemCount`). */
  function ItemCount(items: seq<CartItem>): int
  {
    if |items| == 0 then 0 else ItemCount(items[..|items| - 1]) + items[|items| - 1].quantity
  }

  /** Summed quantity of the entries for `id` (the entry's quantity when ids are unique). */
  function QuantityOf(items: seq<CartItem>, id: string): int
  {
    if |items| == 0 then 0
    else QuantityOf(items[..|items| - 1], id) +
         (if items[|items| - 1].product.id == id then items[|items| - 1].quantity else 0)
  }

  /**
   * The memoised `cart` value: both `reduce` loops, run left to right with a zero seed,
   * compute the reference sums.
   */
  method ComputeCart(items: seq<CartItem>) returns (cart: Cart)
    ensures cart.items == items
    ensures cart.total == Total(items)
    ensures cart.itemCount == ItemCount(items)
  {
    var total := 0;
    var count := 0;
    var i := 0;
    while i < |items|
      invariant 0 <= i <= |items|
      invariant total == Total(items[..i])
      invariant count == ItemCount(items[..i])
    {
      assert items[..i + 1][..i] == items[..i];
      total := total + items[i].product.price * items[i].quantity;
      count := count + items[i].quantity;
      i := i + 1;
    }
    assert items[..i] == items;
    cart := Cart(items, total, count);
  }

  /** With every quantity at least one, there are at least as many units as entries. */
  lemma {:induction false} ItemCountBounds(items: seq<CartItem>)
    requires AllPositive(items)
    ensures ItemCount(items) >= |items|
    ensures ItemCount(items) == 0 <==> items == []
  {
    if |items| > 0 {
      ItemCountBounds(items[..|items| - 1]);
    }
  }

  /** The sums over a concatenation add up. */
  lemma {:induction false} SumsAppend(a: seq<CartItem>, b: seq<CartItem>)
    ensures Total(a + b) == Total(a) + Total(b)
    ensures ItemCount(a + b) == ItemCount(a) + ItemCount(b)
    decreases |b|
  {
    if |b| > 0 {
      var b' := b[..|b| - 1];
      assert (a + b)[..|a + b| - 1] == a + b';
      SumsAppend(a, b');
    } else {
      assert a + b == a;
    }
  }

  /** Adding `delta` of a product raises the unit count by exactly `delta` when ids are unique. */
  lemma ItemCountAfterAdd(items: seq<CartItem>, p: Product, delta: int)
    requires UniqueIds(items)
    ensures ItemCount(Reduce(items, AddItem(p, delta))) == ItemCount(items) + delta
    ensures QuantityOf(Reduce(items, AddItem(p, delta)), p.id) == QuantityOf(items, p.id) + delta
  {
    var r := Reduce(items, AddItem(p, delta));
    if IsInCart(items, p.id) {
      var k :| 0 <= k < |items| && items[k].product.id == p.id;
      AddToEntriesSums(items, p.id, delta, k);
    } else {
      SumsAppend(items, [CartItem(p, delta)]);
      assert r[..|r| - 1] == items;
    }
  }

  lemma {:induction false} AddToEntriesSums(items: seq<CartItem>, id: string, delta: int, k: nat)
    requires UniqueIds(items)
    requires k < |items| && items[k].product.id == id
    ensures ItemCount(AddToEntries(items, id, delta)) == ItemCount(items) + delta
    ensures QuantityOf(AddToEntries(items, id, delta), id) == QuantityOf(items, id) + delta
    ensures forall j :: j != id ==> QuantityOf(AddToEntries(items, id, delta), j) == QuantityOf(items, j)
    decreases |items|
  {
    var r := AddToEntries(items, id, delta);
    var n := |items|;
    var init := items[..n - 1];
    assert r[..n - 1] == AddToEntries(init, id, delta);
    assert UniqueIds(init) by {
      forall i, j | 0 <= i < j < |init| ensures ProductIdOf(init[i]) != ProductIdOf(init[j]) {
        assert init[i] == items[i] && init[j] == items[j];
      }
    }
    if k == n - 1 {
      assert !IsInCart(init, id);
      AddToEntriesAbsent(init, id, delta);
    } else {
      AddToEntriesSums(init, id, delta, k);
      assert items[n - 1].product.id != id by {
        assert ProductIdOf(items[k]) != ProductIdOf(items[n - 1]);
      }
    }
  }

  lemma {:induction false} AddToEntriesAbsent(items: seq<CartItem>, id: string, delta: int)
    requires !IsInCart(items, id)
    ensures AddToEntries(items, id, delta) == items
  {
  }

  /** `isInCart` after each kind of action. */
  lemma IsInCartAfter(items: seq<CartItem>, action: CartAction, id: string)
    ensures action.AddItem? ==>
              (IsInCart(Reduce(items, action), id) <==> IsInCart(items, id) || id == action.product.id)
    ensures action.RemoveItem? && action.productId == id ==> !IsInCart(Reduce(items, action), id)
    ensures action.UpdateQty? && action.productId == id && action.quantity <= 0 ==>
              !IsInCart(Reduce(items, action), id)
    ensures action.UpdateQty? ==> (IsInCart(Reduce(items, action), id) <==>
              IsInCart(items, id) && !(action.productId == id && action.quantity <= 0))
    ensures action.ClearCart? ==> !IsInCart(Reduce(items, action), id)
  {
    var r := Reduce(items, action);
    match action
    case AddItem(p, d) =>
      if !IsInCart(items, p.id) {
        assert r[|items|].product.id == p.id;
        if IsInCart(items, id) {
          var i :| 0 <= i < |items| && items[i].product.id == id;
          assert r[i] == items[i];
        }
      } else {
        if id == p.id {
          var i :| 0 <= i < |items| && items[i].product.id == id;
          assert r[i].product == items[i].product;
        }
        if IsInCart(items, id) {
          var i :| 0 <= i < |items| && items[i].product.id == id;
          assert r[i].product == items[i].product;
        }
      }
    case UpdateQty(pid, q) =>
      if q > 0 {
        if IsInCart(items, id) {
          var i :| 0 <= i < |items| && items[i].product.id == id;
          assert r[i].product == items[i].product;
        }
      } else if pid != id {
        if IsInCart(items, id) {
          var i :| 0 <= i < |items| && items[i].product.id == id;
          assert items[i] in r;
        }
        if IsInCart(r, id) {
          var i :| 0 <= i < |r| && r[i].product.id == id;
          assert r[i] in items;
        }
      }
    case _ =>
  }

  /** Adds `deltas` of one product one call after another (the `ADD_ITEM` actions of repeated adds). */
  function AddRepeatedly(items: seq<CartItem>, p: Product, deltas: seq<int>): seq<CartItem>
  {
    if |deltas| == 0 then items
    else Reduce(AddRepeatedly(items, p, deltas[..|deltas| - 1]), AddItem(p, deltas[|deltas| - 1]))
  }

  function Sum(xs: seq<int>): int
  {
    if |xs| == 0 then 0 else Sum(xs[..|xs| - 1]) + xs[|xs| - 1]
  }

  /** Repeated adds of one product accumulate: the entry ends at its old quantity plus the sum of the adds. */
  lemma {:induction false} RepeatedAddsAccumulate(items: seq<CartItem>, p: Product, deltas: seq<int>)
    requires UniqueIds(items)
    ensures UniqueIds(AddRepeatedly(items, p, deltas))
    ensures QuantityOf(AddRepeatedly(items, p, deltas), p.id) == QuantityOf(items, p.id) + Sum(deltas)
  {
    if |deltas| > 0 {
      var prev := AddRepeatedly(items, p, deltas[..|deltas| - 1]);
      RepeatedAddsAccumulate(items, p, deltas[..|deltas| - 1]);
      ItemCountAfterAdd(prev, p, deltas[|deltas| - 1]);
      AddKeepsUnique(prev, p, deltas[|deltas| - 1]);
    }
  }

  /** `ADD_ITEM` keeps ids unique whatever the amount. */
  lemma AddKeepsUnique(items: seq<CartItem>, p: Product, delta: int)
    requires UniqueIds(items)
    ensures UniqueIds(Reduce(items, AddItem(p, delta)))
  {
    var r := Reduce(items, AddItem(p, delta));
    if !IsInCart(items, p.id) {
      forall i, j | 0 <= i < j < |r| ensures ProductIdOf(r[i]) != ProductIdOf(r[j]) {
        if j == |items| {
          assert r[i] == items[i];
        }
      }
    }
  }
}
