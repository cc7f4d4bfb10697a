/**
 * What the sync layer promises about the remote cart records.
 *
 * The remote store is the `cartItems` collection, modelled as a map from record id to
 * record; `Apply` is what a call does to it when it succeeds (a failed call changes
 * nothing). `Synced` says local items, index and remote records agree. The lemmas show
 * that every operation keeps them in agreement when its remote call succeeds, that a
 * successful load establishes agreement, and what the failure policies of the code
 * leave behind when a delete fails.
 */
module CartRemote {
  import opened Wrappers
  import opened Types
  import opened Seqs
  import opened CartLedger
  import opened CartSync

  type Store = map<string, CartRecord>

  /** The effect of a call on the store: creates, patches and deletes by record id. */
  function Apply(store: Store, call: RemoteCall, reply: Reply): (r: Store)
    ensures reply.Failed? || call.NoCall? || call.FetchFor? ==> r == store
    ensures reply.Ok? && call.CreateRecord? ==>
              r == store[reply.recordId := CartRecord(reply.recordId, call.userId, call.product.id, call.product, call.quantity)]
    ensures reply.Ok? && call.UpdateRecord? ==>
              r == if call.recordId in store then store[call.recordId := store[call.recordId].(quantity := call.quantity)] else store
    ensures reply.Ok? && call.DeleteRecord? ==> r == store - {call.recordId}
    ensures reply.Ok? && call.DeleteAllFor? ==>
              r.Keys == (set rid | rid in store && store[rid].userId != call.userId) &&
              forall rid :: rid in r ==> rid in store && r[rid] == store[rid]
  {
    if reply.Failed? then store
    else
      match call
      case NoCall => store
      case CreateRecord(u, p, q) => store[reply.recordId := CartRecord(reply.recordId, u, p.id, p, q)]
      case UpdateRecord(rid, q) => if rid in store then store[rid := store[rid].(quantity := q)] else store
      case DeleteRecord(rid) => store - {rid}
      case DeleteAllFor(u) => map rid | rid in store && store[rid].userId != u :: store[rid]
      case FetchFor(_) => store
  }

  /** Records are stored under their own id, keyed by the product they hold. */
  ghost predicate WellKeyed(store: Store)
  {
    forall rid :: rid in store ==> store[rid].id == rid && store[rid].productId == store[rid].product.id
  }

  /** The cart line has a record id, and that record holds the same product and quantity. */
  ghost predicate Mirrored(s: SyncState, store: Store, item: CartItem)
  {
    var pid := item.product.id;
    ServerId(s.index, pid).Some? &&
    s.index[pid] in store &&
    store[s.index[pid]].quantity == item.quantity &&
    store[s.index[pid]].product == item.product
  }

  /** The index entry for `pid` names a record of the signed-in user for that product. */
  ghost predicate Owned(s: SyncState, store: Store, pid: string)
    requires s.user.Some? && pid in s.index
  {
    s.index[pid] in store &&
    store[s.index[pid]].productId == pid &&
    store[s.index[pid]].userId == s.user.value
  }

  /** Every cart line is mirrored by its record. */
  ghost predicate AllMirrored(s: SyncState, store: Store)
  {
    forall i :: 0 <= i < |s.items| ==> Mirrored(s, store, s.items[i])
  }

  /** Every index entry is for a product in the cart and names that product's record. */
  ghost predicate IndexOwned(s: SyncState, store: Store)
    requires s.user.Some?
  {
    forall pid :: pid in s.index ==> IsInCart(s.items, pid) && Owned(s, store, pid)
  }

  /** Every record of the signed-in user is named by some index entry. */
  ghost predicate NoOrphans(s: SyncState, store: Store)
    requires s.user.Some?
  {
    forall rid :: rid in store && store[rid].userId == s.user.value ==> rid in s.index.Values
  }

  /** Local cart, index and the signed-in user's remote records agree. */
  ghost predicate Synced(s: SyncState, store: Store)
  {
    && s.user.Some?
    && UniqueIds(s.items)
    && AllMirrored(s, store)
    && IndexOwned(s, store)
    && NoOrphans(s, store)
  }

  /** Under `Synced`, a product has a record id exactly when it is in the cart. */
  lemma IndexedIffInCart(s: SyncState, store: Store, pid: string)
    requires Synced(s, store)
    ensures ServerId(s.index, pid).Some? <==> IsInCart(s.items, pid)
    ensures pid in s.index <==> IsInCart(s.items, pid)
  {
    if IsInCart(s.items, pid) {
      var i :| 0 <= i < |s.items| && s.items[i].product.id == pid;
      assert Mirrored(s, store, s.items[i]);
    }
  }

  /** Two indexed products never share a record id. */
  lemma IndexInjective(s: SyncState, store: Store, a: string, b: string)
    requires Synced(s, store)
    requires a in s.index && b in s.index && a != b
    ensures s.index[a] != s.index[b]
  {
    assert Owned(s, store, a) && Owned(s, store, b);
  }

  /** A successful create with a fresh id keeps the cart in sync. */
  lemma AddAbsentKeepsSync(s: SyncState, store: Store, p: Product, q: int, rid: string)
    requires Synced(s, store)
    requires !IsInCart(s.items, p.id)
    requires rid != "" && rid !in store
    ensures var step := AddToCart(s, p, q, Ok(rid));
            Synced(step.state, Apply(store, step.call, Ok(rid)))
  {
    var step := AddToCart(s, p, q, Ok(rid));
    var t := step.state;
    var st := Apply(store, step.call, Ok(rid));
    var u := s.user.value;
    IndexedIffInCart(s, store, p.id);
    assert t.items == s.items + [CartItem(p, q)];
    assert t.index == s.index[p.id := rid];
    assert st == store[rid := CartRecord(rid, u, p.id, p, q)];
    AddKeepsUnique(s.items, p, q);
    AddedMirrored(s, store, p, q, rid, t, st);
    AddedOwned(s, store, p, q, rid, t, st);
    AddedNoOrphans(s, store, p, q, rid, t, st);
  }

  /** The state and store after a successful create of `p` under the fresh id `rid`. */
  ghost predicate AddedUnder(s: SyncState, store: Store, p: Product, q: int, rid: string, t: SyncState, st: Store)
    requires s.user.Some?
  {
    && t.user == s.user
    && t.items == s.items + [CartItem(p, q)]
    && t.index == s.index[p.id := rid]
    && st == store[rid := CartRecord(rid, s.user.value, p.id, p, q)]
  }

  lemma AddedMirrored(s: SyncState, store: Store, p: Product, q: int, rid: string, t: SyncState, st: Store)
    requires Synced(s, store) && !IsInCart(s.items, p.id) && rid != "" && rid !in store
    requires AddedUnder(s, store, p, q, rid, t, st)
    ensures AllMirrored(t, st)
  {
    forall i | 0 <= i < |t.items| ensures Mirrored(t, st, t.items[i]) {
      if i < |s.items| {
        var item := s.items[i];
        assert t.items[i] == item;
        assert Mirrored(s, store, item);
        assert item.product.id != p.id;
      }
    }
  }

  lemma AddedOwned(s: SyncState, store: Store, p: Product, q: int, rid: string, t: SyncState, st: Store)
    requires Synced(s, store) && !IsInCart(s.items, p.id) && rid != "" && rid !in store
    requires AddedUnder(s, store, p, q, rid, t, st)
    ensures IndexOwned(t, st)
  {
    forall pid | pid in t.index ensures IsInCart(t.items, pid) && Owned(t, st, pid) {
      IsInCartAfter(s.items, AddItem(p, q), pid);
      if pid != p.id {
        assert Owned(s, store, pid);
      }
    }
  }

  lemma AddedNoOrphans(s: SyncState, store: Store, p: Product, q: int, rid: string, t: SyncState, st: Store)
    requires Synced(s, store) && !IsInCart(s.items, p.id) && rid != "" && rid !in store
    requires AddedUnder(s, store, p, q, rid, t, st)
    ensures NoOrphans(t, st)
  {
    IndexedIffInCart(s, store, p.id);
    var u := s.user.value;
    forall r | r in st && st[r].userId == u ensures r in t.index.Values {
      if r == rid {
        assert t.index[p.id] == rid;
      } else {
        assert r in s.index.Values;
        var pid :| pid in s.index && s.index[pid] == r;
        assert pid != p.id;
        assert t.index[pid] == r;
      }
    }
  }

  /** A successful update of a present product keeps the cart in sync. */
  lemma AddPresentKeepsSync(s: SyncState, store: Store, p: Product, q: int, reply: Reply)
    requires Synced(s, store)
    requires IsInCart(s.items, p.id)
    requires reply.Ok?
    ensures var step := AddToCart(s, p, q, reply);
            Synced(step.state, Apply(store, step.call, reply))
  {
    IndexedIffInCart(s, store, p.id);
    var k :| 0 <= k < |s.items| && s.items[k].product.id == p.id;
    AddPresentStep(s, store, p, q, reply, k);
    var step := AddToCart(s, p, q, reply);
    BumpKeepsSync(s, store, p, q, k, step.state, Apply(store, step.call, reply));
  }

  /** What `addToCart` sends and keeps for an indexed product at position `k`. */
  lemma AddPresentStep(s: SyncState, store: Store, p: Product, q: int, reply: Reply, k: nat)
    requires s.user.Some? && UniqueIds(s.items)
    requires k < |s.items| && s.items[k].product.id == p.id
    requires ServerId(s.index, p.id).Some? && reply.Ok?
    ensures var step := AddToCart(s, p, q, reply);
            step.state == SyncState(Reduce(s.items, AddItem(p, q)), s.index, s.user) &&
            Apply(store, step.call, reply) == Apply(store, UpdateRecord(s.index[p.id], s.items[k].quantity + q), Ok(""))
  {
    FindIsAt(s.items, p.id, k);
    assert IsInCart(s.items, p.id);
  }

  lemma BumpKeepsSync(s: SyncState, store: Store, p: Product, q: int, k: nat, t: SyncState, st: Store)
    requires Synced(s, store)
    requires k < |s.items| && s.items[k].product.id == p.id && p.id in s.index
    requires t == SyncState(Reduce(s.items, AddItem(p, q)), s.index, s.user)
    requires st == Apply(store, UpdateRecord(s.index[p.id], s.items[k].quantity + q), Ok(""))
    ensures Synced(t, st)
  {
    assert Owned(s, store, p.id);
    AddKeepsUnique(s.items, p, q);
    BumpMirrored(s, store, p, q, k, t, st);
    BumpOwned(s, store, p, q, s.items[k].quantity + q, t, st);
  }

  lemma BumpMirrored(s: SyncState, store: Store, p: Product, q: int, k: nat, t: SyncState, st: Store)
    requires Synced(s, store)
    requires k < |s.items| && s.items[k].product.id == p.id && p.id in s.index
    requires t == SyncState(Reduce(s.items, AddItem(p, q)), s.index, s.user)
    requires st == store[s.index[p.id] := store[s.index[p.id]].(quantity := s.items[k].quantity + q)]
    ensures AllMirrored(t, st)
  {
    forall i | 0 <= i < |t.items| ensures Mirrored(t, st, t.items[i]) {
      var item := s.items[i];
      assert Mirrored(s, store, item);
      if item.product.id != p.id {
        IndexInjective(s, store, item.product.id, p.id);
      } else {
        assert ProductIdOf(s.items[i]) == ProductIdOf(s.items[k]);
        assert i == k;
      }
    }
  }

  lemma BumpOwned(s: SyncState, store: Store, p: Product, q: int, n: int, t: SyncState, st: Store)
    requires Synced(s, store)
    requires p.id in s.index && s.index[p.id] in store
    requires t == SyncState(Reduce(s.items, AddItem(p, q)), s.index, s.user)
    requires st == store[s.index[p.id] := store[s.index[p.id]].(quantity := n)]
    ensures IndexOwned(t, st) && NoOrphans(t, st)
  {
    forall pid | pid in t.index ensures IsInCart(t.items, pid) && Owned(t, st, pid) {
      IsInCartAfter(s.items, AddItem(p, q), pid);
      assert Owned(s, store, pid);
    }
  }

  /** A successful delete in `removeFromCart` keeps the cart in sync. */
  lemma RemoveKeepsSync(s: SyncState, store: Store, pid: string, reply: Reply)
    requires Synced(s, store)
    requires reply.Ok?
    ensures var step := RemoveFromCart(s, pid, reply);
            Synced(step.state, Apply(store, step.call, reply))
  {
    var step := RemoveFromCart(s, pid, reply);
    var t := step.state;
    var st := Apply(store, step.call, reply);
    IndexedIffInCart(s, store, pid);
    if IsInCart(s.items, pid) {
      DropKeepsSync(s, store, pid, t, st);
    } else {
      assert t.items == s.items && t.index == s.index && st == store;
    }
  }

  /** Dropping an indexed product from items, index and store together keeps them in sync. */
  lemma DropKeepsSync(s: SyncState, store: Store, pid: string, t: SyncState, st: Store)
    requires Synced(s, store)
    requires pid in s.index
    requires t == SyncState(Without(s.items, pid), s.index - {pid}, s.user)
    requires st == store - {s.index[pid]}
    ensures Synced(t, st)
  {
    FilterKeepsDistinct(s.items, KeepsOthers(pid), ProductIdOf);
    DropMirrored(s, store, pid, t, st);
    DropOwned(s, store, pid, t, st);
    DropNoOrphans(s, store, pid, t, st);
  }

  lemma DropMirrored(s: SyncState, store: Store, pid: string, t: SyncState, st: Store)
    requires Synced(s, store)
    requires pid in s.index
    requires t == SyncState(Without(s.items, pid), s.index - {pid}, s.user)
    requires st == store - {s.index[pid]}
    ensures AllMirrored(t, st)
  {
    forall i | 0 <= i < |t.items| ensures Mirrored(t, st, t.items[i]) {
      var item := t.items[i];
      assert item in t.items;
      var j :| 0 <= j < |s.items| && s.items[j] == item;
      assert Mirrored(s, store, s.items[j]);
      DropOtherMirrored(s, store, pid, item);
    }
  }

  /** A line for another product is still mirrored after `pid` is dropped. */
  lemma DropOtherMirrored(s: SyncState, store: Store, pid: string, item: CartItem)
    requires Synced(s, store)
    requires pid in s.index && item.product.id != pid
    requires Mirrored(s, store, item)
    ensures Mirrored(s.(index := s.index - {pid}), store - {s.index[pid]}, item)
  {
    IndexInjective(s, store, item.product.id, pid);
  }

  lemma DropOwned(s: SyncState, store: Store, pid: string, t: SyncState, st: Store)
    requires Synced(s, store)
    requires pid in s.index
    requires t == SyncState(Without(s.items, pid), s.index - {pid}, s.user)
    requires st == store - {s.index[pid]}
    ensures IndexOwned(t, st)
  {
    forall p | p in t.index ensures IsInCart(t.items, p) && Owned(t, st, p) {
      DropOtherOwned(s, store, pid, p);
    }
  }

  /** Another indexed product is still in the cart and still owns its record after `pid` is dropped. */
  lemma DropOtherOwned(s: SyncState, store: Store, pid: string, p: string)
    requires Synced(s, store)
    requires pid in s.index && p in s.index && p != pid
    ensures IsInCart(Without(s.items, pid), p)
    ensures Owned(SyncState(Without(s.items, pid), s.index - {pid}, s.user), store - {s.index[pid]}, p)
  {
    assert IsInCart(s.items, p) && Owned(s, store, p);
    OtherStaysInCart(s.items, pid, p);
    IndexInjective(s, store, p, pid);
  }

  /** Dropping `pid` keeps every other product in the cart. */
  lemma OtherStaysInCart(items: seq<CartItem>, pid: string, p: string)
    requires IsInCart(items, p) && p != pid
    ensures IsInCart(Without(items, pid), p)
  {
    var j :| 0 <= j < |items| && items[j].product.id == p;
    assert items[j] in Without(items, pid);
  }

  lemma DropNoOrphans(s: SyncState, store: Store, pid: string, t: SyncState, st: Store)
    requires Synced(s, store)
    requires pid in s.index
    requires t == SyncState(Without(s.items, pid), s.index - {pid}, s.user)
    requires st == store - {s.index[pid]}
    ensures NoOrphans(t, st)
  {
    forall r | r in st && st[r].userId == s.user.value ensures r in t.index.Values {
      StillNamed(s.index, pid, r);
    }
  }

  /** A value other than the dropped key's is still named after the key is removed. */
  lemma StillNamed(index: Index, pid: string, r: string)
    requires pid in index && r in index.Values && r != index[pid]
    ensures r in (index - {pid}).Values
  {
    var p :| p in index && index[p] == r;
    assert (index - {pid})[p] == r;
  }

  /** A successful update or delete in `updateQuantity` keeps the cart in sync. */
  lemma UpdateKeepsSync(s: SyncState, store: Store, pid: string, q: int, reply: Reply)
    requires Synced(s, store)
    requires reply.Ok?
    ensures var step := UpdateQuantity(s, pid, q, reply);
            Synced(step.state, Apply(store, step.call, reply))
  {
    var step := UpdateQuantity(s, pid, q, reply);
    var t := step.state;
    var st := Apply(store, step.call, reply);
    IndexedIffInCart(s, store, pid);
    if !IsInCart(s.items, pid) {
      assert t.items == s.items && t.index == s.index && st == store;
    } else if q <= 0 {
      DropKeepsSync(s, store, pid, t, st);
    } else {
      var rid := s.index[pid];
      assert Owned(s, store, pid);
      assert st == store[rid := store[rid].(quantity := q)];
      SetQtyUnique(s, store, pid, q, t);
      SetQtyMirrored(s, store, pid, q, t, st);
      SetQtyOwned(s, store, pid, q, t, st);
    }
  }

  /** The state and store after a successful quantity patch of the indexed product `pid`. */
  ghost predicate PatchedTo(s: SyncState, store: Store, pid: string, q: int, t: SyncState, st: Store)
    requires pid in s.index && s.index[pid] in store
  {
    && t == s.(items := Reduce(s.items, UpdateQty(pid, q)))
    && st == store[s.index[pid] := store[s.index[pid]].(quantity := q)]
  }

  lemma SetQtyUnique(s: SyncState, store: Store, pid: string, q: int, t: SyncState)
    requires Synced(s, store) && q > 0
    requires t == s.(items := Reduce(s.items, UpdateQty(pid, q)))
    ensures UniqueIds(t.items)
  {
    forall i, j | 0 <= i < j < |t.items| ensures ProductIdOf(t.items[i]) != ProductIdOf(t.items[j]) {
      assert ProductIdOf(s.items[i]) != ProductIdOf(s.items[j]);
    }
  }

  lemma SetQtyMirrored(s: SyncState, store: Store, pid: string, q: int, t: SyncState, st: Store)
    requires Synced(s, store) && q > 0 && pid in s.index && s.index[pid] in store
    requires PatchedTo(s, store, pid, q, t, st)
    ensures AllMirrored(t, st)
  {
    forall i | 0 <= i < |t.items| ensures Mirrored(t, st, t.items[i]) {
      assert Mirrored(s, store, s.items[i]);
      if s.items[i].product.id != pid {
        IndexInjective(s, store, s.items[i].product.id, pid);
      }
    }
  }

  lemma SetQtyOwned(s: SyncState, store: Store, pid: string, q: int, t: SyncState, st: Store)
    requires Synced(s, store) && q > 0 && pid in s.index && s.index[pid] in store
    requires PatchedTo(s, store, pid, q, t, st)
    ensures IndexOwned(t, st)
  {
    forall p | p in t.index ensures IsInCart(t.items, p) && Owned(t, st, p) {
      IsInCartAfter(s.items, UpdateQty(pid, q), p);
      assert Owned(s, store, p);
    }
  }

  /** A successful clear leaves an empty cart, an empty index and no records of the user. */
  lemma ClearKeepsSync(s: SyncState, store: Store, reply: Reply)
    requires Synced(s, store)
    requires reply.Ok?
    ensures var step := CartSync.ClearCart(s, reply);
            Synced(step.state, Apply(store, step.call, reply))
  {
    var step := CartSync.ClearCart(s, reply);
    var st := Apply(store, step.call, reply);
    forall r | r in st ensures st[r].userId != s.user.value {
    }
  }

  /** `Apply` keeps records stored under their own id and product. */
  lemma ApplyKeepsWellKeyed(store: Store, call: RemoteCall, reply: Reply)
    requires WellKeyed(store)
    ensures WellKeyed(Apply(store, call, reply))
  {
  }

  /** The records of one user in the store, listed once each. */
  ghost predicate ListsUserRecords(records: seq<CartRecord>, store: Store, u: string)
  {
    && (forall i :: 0 <= i < |records| ==> records[i].id in store && store[records[i].id] == records[i])
    && (forall i :: 0 <= i < |records| ==> records[i].userId == u && records[i].id != "")
    && (forall rid :: rid in store && store[rid].userId == u ==>
          exists i :: 0 <= i < |records| && records[i].id == rid)
  }

  /** Loading a user's records, one per product, puts the cart in sync with the store. */
  lemma LoadEstablishesSync(s: SyncState, u: string, records: seq<CartRecord>, store: Store)
    requires s.user != Some(u)
    requires WellKeyed(store)
    requires ListsUserRecords(records, store, u)
    requires forall i, j :: 0 <= i < j < |records| ==> records[i].productId != records[j].productId
    ensures Synced(IdentityChanged(s, Some(u), Fetched(records)).state, store)
  {
    var t := SyncState(ItemsOf(records), IndexOf(records), Some(u));
    assert IdentityChanged(s, Some(u), Fetched(records)).state == t;
    DistinctProductsAreLast(records);
    forall i | 0 <= i < |records| ensures records[i].productId == records[i].product.id {
      assert records[i].id in store;
    }
    DistinctProductsUnique(records);
    LoadedMirrored(u, records, store);
    LoadedOwned(u, records, store);
    LoadedNoOrphans(u, records, store);
  }

  lemma DistinctProductsAreLast(records: seq<CartRecord>)
    requires forall i, j :: 0 <= i < j < |records| ==> records[i].productId != records[j].productId
    ensures forall i :: 0 <= i < |records| ==> LastFor(records, i)
  {
  }

  lemma DistinctProductsUnique(records: seq<CartRecord>)
    requires forall i, j :: 0 <= i < j < |records| ==> records[i].productId != records[j].productId
    requires forall i :: 0 <= i < |records| ==> records[i].productId == records[i].product.id
    ensures UniqueIds(ItemsOf(records))
  {
    var items := ItemsOf(records);
    forall i, j | 0 <= i < j < |items| ensures ProductIdOf(items[i]) != ProductIdOf(items[j]) {
    }
  }

  lemma LoadedMirrored(u: string, records: seq<CartRecord>, store: Store)
    requires ListsUserRecords(records, store, u)
    requires forall i :: 0 <= i < |records| ==> LastFor(records, i)
    ensures AllMirrored(SyncState(ItemsOf(records), IndexOf(records), Some(u)), store)
  {
  }

  lemma LoadedOwned(u: string, records: seq<CartRecord>, store: Store)
    requires ListsUserRecords(records, store, u)
    requires forall i :: 0 <= i < |records| ==> LastFor(records, i)
    requires forall i :: 0 <= i < |records| ==> records[i].productId == records[i].product.id
    ensures IndexOwned(SyncState(ItemsOf(records), IndexOf(records), Some(u)), store)
  {
    var t := SyncState(ItemsOf(records), IndexOf(records), Some(u));
    forall pid | pid in t.index ensures IsInCart(t.items, pid) && Owned(t, store, pid) {
      assert HasRecordFor(records, pid);
      var i :| 0 <= i < |records| && records[i].productId == pid;
      assert LastFor(records, i);
      assert t.items[i].product.id == pid;
    }
  }

  lemma LoadedNoOrphans(u: string, records: seq<CartRecord>, store: Store)
    requires ListsUserRecords(records, store, u)
    requires forall i :: 0 <= i < |records| ==> LastFor(records, i)
    ensures NoOrphans(SyncState(ItemsOf(records), IndexOf(records), Some(u)), store)
  {
    var index := IndexOf(records);
    forall r | r in store && store[r].userId == u ensures r in index.Values {
      var i :| 0 <= i < |records| && records[i].id == r;
      assert LastFor(records, i);
      assert index[records[i].productId] == r;
    }
  }

  // ---------------------------------------------------------------------------
  // What the failure policies leave behind.

  /**
   * `removeFromCart` drops the index entry even when the delete fails: the record stays
   * in the store, no index entry names it any more, and the user's next load brings the
   * removed product back.
   */
  lemma FailedRemoveLeavesOrphan(s: SyncState, store: Store, pid: string, records: seq<CartRecord>)
    requires Synced(s, store)
    requires IsInCart(s.items, pid)
    requires ListsUserRecords(records, store, s.user.value)
    requires WellKeyed(store)
    ensures var step := RemoveFromCart(s, pid, Failed);
            var rid := s.index[pid];
            Apply(store, step.call, Failed) == store &&
            rid in store && store[rid].userId == s.user.value &&
            rid !in step.state.index.Values &&
            !IsInCart(step.state.items, pid) &&
            IsInCart(IdentityChanged(step.state.(user := None), s.user, Fetched(records)).state.items, pid)
  {
    IndexedIffInCart(s, store, pid);
    var step := RemoveFromCart(s, pid, Failed);
    assert step.state == SyncState(Without(s.items, pid), s.index - {pid}, s.user);
    assert Owned(s, store, pid);
    DroppedIdUnnamed(s, store, pid);
    ReloadRestores(step.state.(user := None), s.user.value, records, store, s.index[pid]);
  }

  /** Once its index entry is dropped, no entry names the product's record. */
  lemma DroppedIdUnnamed(s: SyncState, store: Store, pid: string)
    requires Synced(s, store)
    requires pid in s.index
    ensures s.index[pid] !in (s.index - {pid}).Values
  {
    forall p | p in s.index - {pid} ensures (s.index - {pid})[p] != s.index[pid] {
      IndexInjective(s, store, p, pid);
    }
  }

  /** Loading the user's records brings back the product of every record the user has. */
  lemma ReloadRestores(s: SyncState, u: string, records: seq<CartRecord>, store: Store, rid: string)
    requires s.user != Some(u)
    requires ListsUserRecords(records, store, u)
    requires WellKeyed(store)
    requires rid in store && store[rid].userId == u
    ensures IsInCart(IdentityChanged(s, Some(u), Fetched(records)).state.items, store[rid].productId)
  {
    var i :| 0 <= i < |records| && records[i].id == rid;
    var items := IdentityChanged(s, Some(u), Fetched(records)).state.items;
    assert items == ItemsOf(records);
    assert items[i].product == store[rid].product;
  }

  /**
   * `updateQuantity(id, 0)` keeps the index entry when the delete fails, so the product
   * leaves the cart while its record id stays indexed; adding the product again then
   * creates a second record and the first one is no longer indexed.
   */
  lemma FailedZeroUpdateThenAddDuplicates(s: SyncState, store: Store, p: Product, q: int, rid2: string)
    requires Synced(s, store)
    requires IsInCart(s.items, p.id)
    requires rid2 != "" && rid2 !in store
    ensures var s1 := UpdateQuantity(s, p.id, 0, Failed).state;
            var step := AddToCart(s1, p, q, Ok(rid2));
            var st := Apply(store, step.call, Ok(rid2));
            !IsInCart(s1.items, p.id) && p.id in s1.index &&
            step.call.CreateRecord? &&
            s.index[p.id] in st && rid2 in st &&
            st[s.index[p.id]].productId == p.id && st[rid2].productId == p.id &&
            s.index[p.id] != rid2 &&
            step.state.index[p.id] == rid2
  {
    IndexedIffInCart(s, store, p.id);
    assert Owned(s, store, p.id);
    UpdateToZeroRemoves(s, p.id, 0, Failed);
  }

  /**
   * Switching straight from one signed-in user to another with a failed load keeps the
   * first user's cart and record ids, so a removal by the second user deletes the first
   * user's record.
   */
  lemma FailedSwitchKeepsPreviousUsersRecords(s: SyncState, store: Store, other: string, pid: string)
    requires Synced(s, store)
    requires s.user != Some(other)
    requires IsInCart(s.items, pid)
    ensures var s1 := IdentityChanged(s, Some(other), FetchFailed).state;
            var step := RemoveFromCart(s1, pid, Ok(""));
            s1.user == Some(other) && s1.items == s.items &&
            step.call == DeleteRecord(s.index[pid]) &&
            store[s.index[pid]].userId == s.user.value && s.user.value != other
  {
    IndexedIffInCart(s, store, pid);
    assert Owned(s, store, pid);
  }
}
