/**
 * The order pages of the seller and admin dashboards: the status transition table both
 * share, the per-status counts, and the status and search filters.
 */
module Orders {
  import opened Wrappers
  import opened Seqs
  import opened Strings
  import opened Types

  // ---------------------------------------------------------------------------
  // The transition table

  /**
   * `NEXT_STATUSES` (seller page) and `NEXT_STATUS` (admin page) hold the same partial
   * record: the statuses an order may move to, with no entry for the last two.
   */
  function NextEntry(s: OrderStatus): Option<seq<OrderStatus>>
  {
    match s
    case Pending => Some([Processing, Cancelled])
    case Processing => Some([Shipped, Cancelled])
    case Shipped => Some([Delivered])
    case Delivered => None
    case Cancelled => None
  }

  /** The seller page's `NEXT_STATUSES[status] ?? []`. */
  function NextStatuses(s: OrderStatus): seq<OrderStatus>
  {
    NextEntry(s).GetOr([])
  }

  /** The admin page shows status actions when the table has an entry. */
  predicate AdminShowsActions(s: OrderStatus)
  {
    NextEntry(s).Some?
  }

  /** The seller page shows status buttons when the list is non-empty. */
  predicate SellerShowsActions(s: OrderStatus)
  {
    |NextStatuses(s)| > 0
  }

  /** `s` may move to `t`. */
  predicate Step(s: OrderStatus, t: OrderStatus)
  {
    t in NextStatuses(s)
  }

  /** How many moves an order is at most away from the end of its life. */
  function StepsLeft(s: OrderStatus): nat
  {
    match s
    case Pending => 3
    case Processing => 2
    case Shipped => 1
    case Delivered => 0
    case Cancelled => 0
  }

  /** Both pages offer actions for the same statuses: exactly the ones that are not final. */
  lemma ActionsAgree(s: OrderStatus)
    ensures AdminShowsActions(s) <==> SellerShowsActions(s)
    ensures SellerShowsActions(s) <==> s != Delivered && s != Cancelled
    ensures AdminShowsActions(s) ==> NextEntry(s).value == NextStatuses(s)
  {
  }

  /** Every move gets strictly closer to the end, and nothing moves back to pending. */
  lemma StepAdvances(s: OrderStatus, t: OrderStatus)
    requires Step(s, t)
    ensures StepsLeft(t) < StepsLeft(s)
    ensures t != Pending
    ensures s != Delivered && s != Cancelled
  {
  }

  /** A status with no further moves is delivered or cancelled, and those have none. */
  lemma TerminalStatuses(s: OrderStatus)
    ensures NextStatuses(s) == [] <==> s == Delivered || s == Cancelled
    ensures StepsLeft(s) == 0 <==> NextStatuses(s) == []
  {
  }

  /** A run of moves through the table. */
  predicate IsPath(p: seq<OrderStatus>)
  {
    forall i :: 0 <= i < |p| - 1 ==> Step(p[i], p[i + 1])
  }

  /**
   * Along any path the remaining distance drops by at least one per move, so a path
   * makes at most three moves, and after the first status it never meets pending.
   */
  lemma {:induction false} PathBound(p: seq<OrderStatus>)
    requires IsPath(p) && |p| > 0
    ensures StepsLeft(p[|p| - 1]) + (|p| - 1) <= StepsLeft(p[0])
    ensures |p| <= 4
    ensures forall i :: 0 < i < |p| ==> p[i] != Pending
    decreases |p|
  {
    if |p| > 1 {
      var init := p[..|p| - 1];
      assert IsPath(init) by {
        forall i | 0 <= i < |init| - 1 ensures Step(init[i], init[i + 1]) {
          assert init[i] == p[i] && init[i + 1] == p[i + 1];
        }
      }
      PathBound(init);
      StepAdvances(p[|p| - 2], p[|p| - 1]);
      forall i | 0 < i < |p| ensures p[i] != Pending {
        StepAdvances(p[i - 1], p[i]);
      }
    }
  }

  // ---------------------------------------------------------------------------
  // Filters

  /** A status tab: every order, or those with one status. */
  datatype StatusFilter = All | Only(status: OrderStatus)

  function StatusOf(o: Order): OrderStatus
  {
    o.status
  }

  predicate InTab(o: Order, f: StatusFilter)
  {
    f.All? || o.status == f.status
  }

  /** The seller page's `filtered`. */
  function SellerFiltered(orders: seq<Order>, f: StatusFilter): (r: seq<Order>)
    ensures f.All? ==> r == orders
    ensures IsSubsequence(r, orders)
    ensures forall o :: o in r <==> o in orders && InTab(o, f)
    ensures f.Only? ==> |r| == CountKey(orders, StatusOf, f.status)
  {
    match f
    case All =>
      SubsequenceOfSelf(orders);
      orders
    case Only(s) =>
      var p := (o: Order) => o.status == s;
      FilterIsSubsequence(orders, p);
      FilterCountsKey(orders, p, StatusOf, s);
      Filter(orders, p)
  }

  /** The admin page's search: the lower-cased text occurs in the lower-cased id or customer id. */
  predicate MatchesSearch(o: Order, search: string)
  {
    Contains(ToLower(o.id), ToLower(search)) || Contains(ToLower(o.userId), ToLower(search))
  }

  /** The admin page's `filtered`: orders matching both the search and the status tab. */
  function AdminFiltered(orders: seq<Order>, search: string, f: StatusFilter): (r: seq<Order>)
    ensures IsSubsequence(r, orders)
    ensures forall o :: o in r <==> o in orders && MatchesSearch(o, search) && InTab(o, f)
    ensures |r| <= |orders|
  {
    var p := (o: Order) => MatchesSearch(o, search) && InTab(o, f);
    FilterIsSubsequence(orders, p);
    Filter(orders, p)
  }

  /** The empty search matches everything, so the "All" tab with no search lists every order. */
  lemma EmptySearchKeepsAll(orders: seq<Order>)
    ensures AdminFiltered(orders, "", All) == orders
  {
    forall o: Order ensures MatchesSearch(o, "") {
      assert IsPrefix("", ToLower(o.id));
    }
    FilterKeepsAll(orders, (o: Order) => MatchesSearch(o, "") && InTab(o, All));
  }

  /** With the empty search, the admin list is the seller page's list for the same tab. */
  lemma EmptySearchIsStatusFilter(orders: seq<Order>, f: StatusFilter)
    ensures AdminFiltered(orders, "", f) == SellerFiltered(orders, f)
  {
    forall o: Order ensures MatchesSearch(o, "") {
      assert IsPrefix("", ToLower(o.id));
    }
    if f.All? {
      EmptySearchKeepsAll(orders);
    } else {
      FilterSame(orders, (o: Order) => MatchesSearch(o, "") && InTab(o, f), (o: Order) => o.status == f.status);
    }
  }

  /** The search ignores ASCII case. */
  lemma SearchIgnoresCase(o: Order, search: string)
    ensures MatchesSearch(o, search) <==> MatchesSearch(o, ToLower(search))
  {
    assert ToLower(ToLower(search)) == ToLower(search);
  }

  // ---------------------------------------------------------------------------
  // Counts

  /** Every order has exactly one of the five statuses, so the per-status counts add up to the total. */
  lemma {:induction false} StatusCountsSum(orders: seq<Order>)
    ensures CountKey(orders, StatusOf, Pending) + CountKey(orders, StatusOf, Processing) +
            CountKey(orders, StatusOf, Shipped) + CountKey(orders, StatusOf, Delivered) +
            CountKey(orders, StatusOf, Cancelled) == |orders|
    decreases |orders|
  {
    if |orders| > 0 {
      var init := orders[..|orders| - 1];
      StatusCountsSum(init);
      forall k ensures CountKey(orders, StatusOf, k) ==
                       CountKey(init, StatusOf, k) + (if StatusOf(orders[|orders| - 1]) == k then 1 else 0) {
      }
    }
  }

  /** A key of the seller page's `counts` object: `all`, or a status. */
  datatype CountTab = AllTab | StatusTab(status: OrderStatus)

  /**
   * The seller page's `counts`: `{ all: orders.length }`, then one bump per order under
   * its status, in an insertion-ordered table.
   */
  method SellerCounts(orders: seq<Order>) returns (counts: Table<CountTab>)
    ensures Lookup(counts, AllTab) == |orders|
    ensures forall s :: Lookup(counts, StatusTab(s)) == CountKey(orders, StatusOf, s)
    ensures DistinctKeys(counts)
    ensures SumCounts(counts) == 2 * |orders|
  {
    counts := [(AllTab, |orders|)];
    for i := 0 to |orders|
      invariant Lookup(counts, AllTab) == |orders|
      invariant forall s :: Lookup(counts, StatusTab(s)) == CountKey(orders[..i], StatusOf, s)
      invariant DistinctKeys(counts)
      invariant SumCounts(counts) == |orders| + i
    {
      assert orders[..i + 1][..i] == orders[..i];
      counts := Bump(counts, StatusTab(orders[i].status));
    }
    assert orders[..|orders|] == orders;
  }

  /**
   * The admin page's `counts`: for each of the five statuses in tab order, the number
   * of orders with that status.
   */
  function AdminCounts(orders: seq<Order>): (r: seq<(OrderStatus, nat)>)
    ensures |r| == 5
    ensures forall k :: 0 <= k < 5 ==> r[k].1 == CountKey(orders, StatusOf, r[k].0)
    ensures r[0].0 == Pending && r[1].0 == Processing && r[2].0 == Shipped
    ensures r[3].0 == Delivered && r[4].0 == Cancelled
    ensures r[0].1 + r[1].1 + r[2].1 + r[3].1 + r[4].1 == |orders|
  {
    var statuses := [Pending, Processing, Shipped, Delivered, Cancelled];
    var r := seq(5, k requires 0 <= k < 5 => (statuses[k], |Filter(orders, (o: Order) => o.status == statuses[k])|));
    forall k | 0 <= k < 5 ensures r[k].1 == CountKey(orders, StatusOf, r[k].0) {
      FilterCountsKey(orders, (o: Order) => o.status == statuses[k], StatusOf, statuses[k]);
    }
    StatusCountsSum(orders);
    r
  }
}
