/**
 * The optimistic sync layer of the cart context: `addToCart`, `removeFromCart`,
 * `updateQuantity`, `clearCart` and the session effect that clears the cart on logout
 * and loads it on login.
 *
 * The provider's state is explicit here: the item list, the `serverIds` index from
 * product id to the id of that product's remote cart record, and the signed-in user id.
 * Each operation applies its reducer step first, then issues at most one remote call;
 * the call's outcome is a parameter (`Reply`), and only the index depends on it. Every
 * operation is one atomic step over the state it starts from.
 */
module CartSync {
  import opened Wrappers
  import opened Types
  import opened Seqs
  import opened CartLedger

  /** A remote cart record (`CartItemRecord`). */
  datatype CartRecord = CartRecord(id: string, userId: string, productId: string, product: Product, quantity: int)

  /** `serverIds`: product id to record id. */
  type Index = map<string, string>

  /** The provider's state; `user` is the signed-in user's id, if any. */
  datatype SyncState = SyncState(items: seq<CartItem>, index: Index, user: Option<string>)

  /** The remote request an operation issues. */
  datatype RemoteCall =
    | NoCall
    | CreateRecord(userId: string, product: Product, quantity: int)
    | UpdateRecord(recordId: string, quantity: int)
    | DeleteRecord(recordId: string)
    | DeleteAllFor(userId: string)
    | FetchFor(userId: string)

  /** Outcome of a remote mutation; a successful create returns the new record's id. */
  datatype Reply = Ok(recordId: string) | Failed

  /** Outcome of fetching a user's cart records. */
  datatype FetchReply = Fetched(records: seq<CartRecord>) | FetchFailed

  datatype Step = Step(state: SyncState, call: RemoteCall)

  /** Empty cart, empty index, nobody signed in. */
  const Initial: SyncState := SyncState([], map[], None)

  /** `serverIds.current.get(id)` as the code tests it: an absent or empty id is a miss. */
  function ServerId(index: Index, productId: string): (r: Option<string>)
    ensures r.Some? <==> productId in index && index[productId] != ""
    ensures r.Some? ==> r.value == index[productId]
  {
    if productId in index && index[productId] != "" then Some(index[productId]) else None
  }

  /** `items.find(i => i.product.id === id)`: the first entry for the product. */
  function Find(items: seq<CartItem>, productId: string): (r: Option<CartItem>)
    ensures r.None? <==> !IsInCart(items, productId)
    ensures r.Some? ==> r.value in items && r.value.product.id == productId
  {
    if |items| == 0 then None
    else if items[0].product.id == productId then Some(items[0])
    else
      var r := Find(items[1..], productId);
      assert IsInCart(items, productId) <==> IsInCart(items[1..], productId) by {
        if IsInCart(items, productId) {
          var i :| 0 <= i < |items| && items[i].product.id == productId;
          assert items[1..][i - 1] == items[i];
        }
        if IsInCart(items[1..], productId) {
          var i :| 0 <= i < |items[1..]| && items[1..][i].product.id == productId;
          assert items[i + 1] == items[1..][i];
        }
      }
      r
  }

  /** With unique ids the entry `find` returns holds the product's whole quantity. */
  lemma {:induction false} FindQuantity(items: seq<CartItem>, productId: string)
    requires UniqueIds(items)
    requires IsInCart(items, productId)
    ensures Find(items, productId).value.quantity == QuantityOf(items, productId)
  {
    var k :| 0 <= k < |items| && items[k].product.id == productId;
    FindIsAt(items, productId, k);
    QuantityOfUnique(items, productId, k);
  }

  lemma {:induction false} FindIsAt(items: seq<CartItem>, productId: string, k: nat)
    requires UniqueIds(items)
    requires k < |items| && items[k].product.id == productId
    ensures Find(items, productId) == Some(items[k])
  {
    if k > 0 {
      assert items[0].product.id != productId by {
        assert ProductIdOf(items[0]) != ProductIdOf(items[k]);
      }
      assert UniqueIds(items[1..]) by {
        forall i, j | 0 <= i < j < |items[1..]| ensures ProductIdOf(items[1..][i]) != ProductIdOf(items[1..][j]) {
          assert items[1..][i] == items[i + 1] && items[1..][j] == items[j + 1];
        }
      }
      FindIsAt(items[1..], productId, k - 1);
    }
  }

  lemma {:induction false} QuantityOfUnique(items: seq<CartItem>, productId: string, k: nat)
    requires UniqueIds(items)
    requires k < |items| && items[k].product.id == productId
    ensures QuantityOf(items, productId) == items[k].quantity
  {
    var n := |items|;
    var init := items[..n - 1];
    assert UniqueIds(init) by {
      forall i, j | 0 <= i < j < |init| ensures ProductIdOf(init[i]) != ProductIdOf(init[j]) {
        assert init[i] == items[i] && init[j] == items[j];
      }
    }
    if k == n - 1 {
      QuantityOfAbsent(init, productId);
    } else {
      assert items[n - 1].product.id != productId by {
        assert ProductIdOf(items[k]) != ProductIdOf(items[n - 1]);
      }
      QuantityOfUnique(init, productId, k);
    }
  }

  lemma {:induction false} QuantityOfAbsent(items: seq<CartItem>, productId: string)
    requires !IsInCart(items, productId)
    ensures QuantityOf(items, productId) == 0
  {
    if |items| > 0 {
      QuantityOfAbsent(items[..|items| - 1], productId);
    }
  }

  // ---------------------------------------------------------------------------
  // The operations.

  /**
   * `addToCart(product, quantity)`. The "already there?" test reads the list the
   * operation started from; a product that is there but has no record id in the index
   * gets no remote call at all.
   */
  function AddToCart(s: SyncState, product: Product, quantity: int, reply: Reply): (step: Step)
    ensures step.state.items == Reduce(s.items, AddItem(product, quantity))
    ensures step.state.user == s.user
    ensures s.user.None? ==> step.call == NoCall && step.state.index == s.index
    ensures s.user.Some? && !IsInCart(s.items, product.id) ==>
              step.call == CreateRecord(s.user.value, product, quantity) &&
              step.state.index == (if reply.Ok? then s.index[product.id := reply.recordId] else s.index)
    ensures s.user.Some? && IsInCart(s.items, product.id) ==>
              step.state.index == s.index &&
              (ServerId(s.index, product.id).None? ==> step.call == NoCall) &&
              (ServerId(s.index, product.id).Some? ==>
                 step.call == UpdateRecord(s.index[product.id], Find(s.items, product.id).value.quantity + quantity))
  {
    var items := Reduce(s.items, AddItem(product, quantity));
    match s.user
    case None => Step(s.(items := items), NoCall)
    case Some(u) =>
      match Find(s.items, product.id)
      case Some(existing) =>
        (match ServerId(s.index, product.id)
         case Some(rid) => Step(s.(items := items), UpdateRecord(rid, existing.quantity + quantity))
         case None => Step(s.(items := items), NoCall))
      case None =>
        var index := if reply.Ok? then s.index[product.id := reply.recordId] else s.index;
        Step(SyncState(items, index, s.user), CreateRecord(u, product, quantity))
  }

  /**
   * `removeFromCart(productId)`. When signed in and the product has a record id, the
   * record is deleted and the index entry dropped whatever the delete's outcome.
   */
  function RemoveFromCart(s: SyncState, productId: string, reply: Reply): (step: Step)
    ensures step.state.items == Reduce(s.items, RemoveItem(productId))
    ensures step.state.user == s.user
    ensures s.user.Some? && ServerId(s.index, productId).Some? ==>
              step.call == DeleteRecord(s.index[productId]) &&
              step.state.index == s.index - {productId}
    ensures s.user.None? || ServerId(s.index, productId).None? ==>
              step.call == NoCall && step.state.index == s.index
  {
    var items := Reduce(s.items, RemoveItem(productId));
    if s.user.Some? && ServerId(s.index, productId).Some? then
      Step(SyncState(items, s.index - {productId}, s.user), DeleteRecord(s.index[productId]))
    else
      Step(s.(items := items), NoCall)
  }

  /**
   * `updateQuantity(productId, quantity)`. A non-positive quantity deletes the record
   * and drops the index entry only when the delete succeeds; a positive one sends the
   * new absolute quantity.
   */
  function UpdateQuantity(s: SyncState, productId: string, quantity: int, reply: Reply): (step: Step)
    ensures step.state.items == Reduce(s.items, UpdateQty(productId, quantity))
    ensures step.state.user == s.user
    ensures s.user.Some? && ServerId(s.index, productId).Some? && quantity <= 0 ==>
              step.call == DeleteRecord(s.index[productId]) &&
              step.state.index == (if reply.Ok? then s.index - {productId} else s.index)
    ensures s.user.Some? && ServerId(s.index, productId).Some? && quantity > 0 ==>
              step.call == UpdateRecord(s.index[productId], quantity) &&
              step.state.index == s.index
    ensures s.user.None? || ServerId(s.index, productId).None? ==>
              step.call == NoCall && step.state.index == s.index
  {
    var items := Reduce(s.items, UpdateQty(productId, quantity));
    if s.user.Some? && ServerId(s.index, productId).Some? then
      var rid := s.index[productId];
      if quantity <= 0 then
        Step(SyncState(items, if reply.Ok? then s.index - {productId} else s.index, s.user), DeleteRecord(rid))
      else
        Step(s.(items := items), UpdateRecord(rid, quantity))
    else
      Step(s.(items := items), NoCall)
  }

  /** `clearCart()`. When signed in, all of the user's records are deleted and the index emptied whatever the outcome. */
  function ClearCart(s: SyncState, reply: Reply): (step: Step)
    ensures step.state.items == []
    ensures step.state.user == s.user
    ensures s.user.Some? ==> step.call == DeleteAllFor(s.user.value) && step.state.index == map[]
    ensures s.user.None? ==> step.call == NoCall && step.state.index == s.index
  {
    match s.user
    case Some(u) => Step(SyncState([], map[], s.user), DeleteAllFor(u))
    case None => Step(s.(items := []), NoCall)
  }

  /** The cart lines a fetched record list loads (`records.map(r => ({ product, quantity }))`). */
  function ItemsOf(records: seq<CartRecord>): (items: seq<CartItem>)
    ensures |items| == |records|
    ensures forall i :: 0 <= i < |records| ==>
              items[i].product == records[i].product && items[i].quantity == records[i].quantity
  {
    seq(|records|, i requires 0 <= i < |records| => CartItem(records[i].product, records[i].quantity))
  }

  /** No later record in the list is for the same product as record `i`. */
  predicate LastFor(records: seq<CartRecord>, i: int)
    requires 0 <= i < |records|
  {
    forall j :: i < j < |records| ==> records[j].productId != records[i].productId
  }

  /** Some record in the list is for product `pid`. */
  predicate HasRecordFor(records: seq<CartRecord>, pid: string)
  {
    exists i :: 0 <= i < |records| && records[i].productId == pid
  }

  /** The index the `forEach` over fetched records builds: the last record for a product wins. */
  function IndexOf(records: seq<CartRecord>): (index: Index)
    ensures forall pid :: pid in index <==> HasRecordFor(records, pid)
    ensures forall i :: 0 <= i < |records| ==> records[i].productId in index
    ensures forall i :: 0 <= i < |records| && LastFor(records, i) ==> index[records[i].productId] == records[i].id
  {
    if |records| == 0 then map[]
    else
      var n := |records|;
      var init := records[..n - 1];
      var prev := IndexOf(init);
      var index := prev[records[n - 1].productId := records[n - 1].id];
      IndexOfStep(records, init, prev, index);
      index
  }

  lemma IndexOfStep(records: seq<CartRecord>, init: seq<CartRecord>, prev: Index, index: Index)
    requires |records| > 0 && init == records[..|records| - 1]
    requires forall pid :: pid in prev <==> HasRecordFor(init, pid)
    requires forall i :: 0 <= i < |init| ==> init[i].productId in prev
    requires forall i :: 0 <= i < |init| && LastFor(init, i) ==> prev[init[i].productId] == init[i].id
    requires index == prev[records[|records| - 1].productId := records[|records| - 1].id]
    ensures forall pid :: pid in index <==> HasRecordFor(records, pid)
    ensures forall i :: 0 <= i < |records| ==> records[i].productId in index
    ensures forall i :: 0 <= i < |records| && LastFor(records, i) ==> index[records[i].productId] == records[i].id
  {
    var n := |records|;
    assert forall i :: 0 <= i < n - 1 ==> init[i] == records[i];
    forall pid ensures pid in index <==> HasRecordFor(records, pid) {
      if HasRecordFor(records, pid) && pid != records[n - 1].productId {
        var i :| 0 <= i < n && records[i].productId == pid;
        assert init[i] == records[i];
      }
      if HasRecordFor(init, pid) {
        var i :| 0 <= i < n - 1 && init[i].productId == pid;
        assert records[i] == init[i];
      }
    }
    forall i | 0 <= i < n && LastFor(records, i) ensures index[records[i].productId] == records[i].id {
      if i < n - 1 {
        assert records[n - 1].productId != records[i].productId;
        assert init[i] == records[i];
        assert LastFor(init, i) by {
          forall j | i < j < n - 1 ensures init[j].productId != init[i].productId {
            assert init[j] == records[j];
          }
        }
      }
    }
  }

  /**
   * The session effect, run when the signed-in identity changes (the effect's
   * dependencies are the user id and the authenticated flag, so an unchanged identity
   * runs nothing). Signing out clears items and index with no remote call; signing in
   * fetches the user's records and replaces items and index with them, and a failed
   * fetch leaves items and index as they were.
   */
  function IdentityChanged(s: SyncState, user: Option<string>, fetched: FetchReply): (step: Step)
    ensures step.state.user == user
    ensures user == s.user ==> step == Step(s, NoCall)
    ensures user != s.user && user.None? ==> step == Step(SyncState([], map[], None), NoCall)
    ensures user != s.user && user.Some? ==> step.call == FetchFor(user.value)
    ensures user != s.user && user.Some? && fetched.Fetched? ==>
              step.state.items == Reduce(s.items, LoadCart(ItemsOf(fetched.records))) &&
              step.state.index == IndexOf(fetched.records)
    ensures user != s.user && user.Some? && fetched.FetchFailed? ==>
              step.state.items == s.items && step.state.index == s.index
  {
    if user == s.user then Step(s, NoCall)
    else
      match user
      case None => Step(SyncState(Reduce(s.items, CartLedger.ClearCart), map[], None), NoCall)
      case Some(u) =>
        match fetched
        case Fetched(records) =>
          Step(SyncState(Reduce(s.items, LoadCart(ItemsOf(records))), IndexOf(records), user), FetchFor(u))
        case FetchFailed => Step(s.(user := user), FetchFor(u))
  }

  // ---------------------------------------------------------------------------
  // Properties of the sync layer.

  /** While nobody is signed in the index is empty. */
  predicate AnonymousHasNoIndex(s: SyncState)
  {
    s.user.None? ==> s.index == map[]
  }

  /** The user-facing actions on the cart. */
  datatype CartOp =
    | Add(product: Product, quantity: int)
    | Remove(productId: string)
    | SetQuantity(productId: string, quantity: int)
    | Clear
    | SignIn(userId: Option<string>, fetched: FetchReply)

  function Perform(s: SyncState, op: CartOp, reply: Reply): Step
  {
    match op
    case Add(p, q) => AddToCart(s, p, q, reply)
    case Remove(pid) => RemoveFromCart(s, pid, reply)
    case SetQuantity(pid, q) => UpdateQuantity(s, pid, q, reply)
    case Clear => ClearCart(s, reply)
    case SignIn(u, f) => IdentityChanged(s, u, f)
  }

  /** The anonymous cart never holds record ids: true initially and kept by every operation. */
  lemma AnonymousHasNoIndexInvariant(s: SyncState, op: CartOp, reply: Reply)
    requires AnonymousHasNoIndex(s)
    ensures AnonymousHasNoIndex(Initial)
    ensures AnonymousHasNoIndex(Perform(s, op, reply).state)
  {
  }

  /** Anonymous use never touches the remote store. */
  lemma AnonymousMakesNoCalls(s: SyncState, op: CartOp, reply: Reply)
    requires s.user.None?
    requires !op.SignIn?
    ensures Perform(s, op, reply).call == NoCall
  {
  }

  /** Every operation applies its reducer step whatever the remote outcome: the replies never change the items. */
  lemma ItemsIgnoreReplies(s: SyncState, op: CartOp, r1: Reply, r2: Reply)
    ensures Perform(s, op, r1).state.items == Perform(s, op, r2).state.items
    ensures Perform(s, op, r1).call == Perform(s, op, r2).call
  {
  }

  /** Operations on a well-formed signed-in or anonymous cart keep it well-formed (positive adds). */
  lemma OperationsKeepLedgerShape(s: SyncState, op: CartOp, reply: Reply)
    requires WellFormed(s.items)
    requires op.Add? ==> op.quantity >= 1
    requires op.SignIn? && op.userId.Some? && op.userId != s.user && op.fetched.Fetched? ==>
               WellFormed(ItemsOf(op.fetched.records))
    ensures WellFormed(Perform(s, op, reply).state.items)
  {
    match op
    case Add(p, q) => ReducePreservesWellFormed(s.items, AddItem(p, q));
    case Remove(pid) => ReducePreservesWellFormed(s.items, RemoveItem(pid));
    case SetQuantity(pid, q) => ReducePreservesWellFormed(s.items, UpdateQty(pid, q));
    case Clear =>
    case SignIn(u, f) =>
  }

  /** After signing out nothing is in the cart, whatever remote calls are still pending. */
  lemma SignOutEmptiesCart(s: SyncState, fetched: FetchReply, productId: string)
    requires s.user.Some?
    ensures var t := IdentityChanged(s, None, fetched).state;
            !IsInCart(t.items, productId) && t.index == map[] &&
            Total(t.items) == 0 && ItemCount(t.items) == 0
  {
  }

  /** Signing in replaces the anonymous cart: nothing from before the load survives unless the user's records hold it. */
  lemma SignInReplacesCart(s: SyncState, userId: string, records: seq<CartRecord>, productId: string)
    requires s.user != Some(userId)
    ensures var t := IdentityChanged(s, Some(userId), Fetched(records)).state;
            IsInCart(t.items, productId) <==> exists i :: 0 <= i < |records| && records[i].product.id == productId
  {
    var t := IdentityChanged(s, Some(userId), Fetched(records)).state;
    if IsInCart(t.items, productId) {
      var i :| 0 <= i < |t.items| && t.items[i].product.id == productId;
      assert records[i].product.id == productId;
    }
    if exists i :: 0 <= i < |records| && records[i].product.id == productId {
      var i :| 0 <= i < |records| && records[i].product.id == productId;
      assert t.items[i].product.id == productId;
    }
  }

  /**
   * `updateQuantity(id, q)` with `q <= 0` takes the product out of the cart; `isInCart`
   * is false afterwards whatever the delete's outcome.
   */
  lemma UpdateToZeroRemoves(s: SyncState, productId: string, quantity: int, reply: Reply)
    requires quantity <= 0
    ensures !IsInCart(UpdateQuantity(s, productId, quantity, reply).state.items, productId)
  {
    IsInCartAfter(s.items, UpdateQty(productId, quantity), productId);
  }

  /** Removing a product never added changes nothing and calls nothing. */
  lemma RemoveAbsentIsNoOp(s: SyncState, productId: string, reply: Reply)
    requires !IsInCart(s.items, productId)
    requires productId !in s.index
    ensures RemoveFromCart(s, productId, reply) == Step(s, NoCall)
  {
  }

  /**
   * For a present product with a record id, the update `addToCart` sends carries the
   * product's new total quantity, not the amount added.
   */
  lemma AddSendsNewTotal(s: SyncState, product: Product, quantity: int, reply: Reply)
    requires UniqueIds(s.items)
    requires s.user.Some? && IsInCart(s.items, product.id) && ServerId(s.index, product.id).Some?
    ensures var step := AddToCart(s, product, quantity, reply);
            step.call.UpdateRecord? && step.call.quantity == QuantityOf(step.state.items, product.id)
  {
    FindQuantity(s.items, product.id);
    ItemCountAfterAdd(s.items, product, quantity);
  }

  /** A failed create leaves the product in the cart but without a record id. */
  lemma FailedCreateLeavesProductUnindexed(s: SyncState, product: Product, quantity: int)
    requires s.user.Some? && !IsInCart(s.items, product.id) && product.id !in s.index
    ensures var t := AddToCart(s, product, quantity, Failed).state;
            IsInCart(t.items, product.id) && product.id !in t.index
  {
    IsInCartAfter(s.items, AddItem(product, quantity), product.id);
  }

  /**
   * A product left in the cart without a record id (after a failed create) gets no remote
   * call from later adds: `addToCart` only updates indexed products and only creates
   * absent ones.
   */
  lemma UnindexedProductStaysLocal(s: SyncState, product: Product, quantity: int, reply: Reply)
    requires s.user.Some? && IsInCart(s.items, product.id) && product.id !in s.index
    ensures var step := AddToCart(s, product, quantity, reply);
            step.call == NoCall && product.id !in step.state.index
  {
  }
}
