/**
 * The figures the admin overview derives from the loaded collections: the relative
 * time of an activity, the per-status, per-role and per-category breakdowns, the five
 * largest categories, the verified/unverified seller split, the pending reports and
 * the scale of the revenue chart.
 */
module Overview {
  import opened Wrappers
  import opened Seqs
  import opened Strings
  import opened Types
  import Server

  // ---------------------------------------------------------------------------
  // timeAgo

  datatype Unit = Minutes | Hours | Days

  /** A rounded-down age: how many whole units. */
  datatype Age = Age(amount: int, unit: Unit)

  const MinuteMs := 60000
  const HourMs := 60 * MinuteMs
  const DayMs := 24 * HourMs

  /**
   * The age `timeAgo` reports for a difference of `diff` milliseconds between now and
   * the timestamp. `Math.floor` of a quotient by a positive divisor is Dafny's `/`.
   */
  function AgeOf(diff: int): (a: Age)
    ensures diff < HourMs <==> a.unit == Minutes
    ensures HourMs <= diff < DayMs <==> a.unit == Hours
    ensures DayMs <= diff <==> a.unit == Days
    ensures a.unit == Minutes ==> a.amount * MinuteMs <= diff < (a.amount + 1) * MinuteMs && a.amount < 60
    ensures a.unit == Hours ==> a.amount * HourMs <= diff < (a.amount + 1) * HourMs && 1 <= a.amount < 24
    ensures a.unit == Days ==> a.amount * DayMs <= diff < (a.amount + 1) * DayMs && a.amount >= 1
  {
    var m := diff / 60000;
    if m < 60 then Age(m, Minutes)
    else
      var h := m / 60;
      if h < 24 then Age(h, Hours)
      else Age(h / 24, Days)
  }

  function Suffix(u: Unit): string
  {
    match u
    case Minutes => "m ago"
    case Hours => "h ago"
    case Days => "d ago"
  }

  /** `timeAgo`, given the difference in milliseconds. */
  function TimeAgo(diff: int): (s: string)
  {
    var a := AgeOf(diff);
    IntToString(a.amount) + Suffix(a.unit)
  }

  /** The text names the amount and the unit: the number in front reads back as the age. */
  lemma TimeAgoReadsBack(diff: int)
    ensures var s := TimeAgo(diff);
            var a := AgeOf(diff);
            var n := |s| - |Suffix(a.unit)|;
            0 < n && s[n..] == Suffix(a.unit) && s[..n] == IntToString(a.amount) &&
            ParseInt(s[..n]) == a.amount
  {
    var a := AgeOf(diff);
    var s := TimeAgo(diff);
    var n := |s| - |Suffix(a.unit)|;
    assert s[..n] == IntToString(a.amount);
    assert s[n..] == Suffix(a.unit);
    ParseIntToString(a.amount);
  }

  /** Two differences within the same whole minute, under an hour, read the same. */
  lemma SameMinuteSameText(d1: int, d2: int)
    requires d1 < HourMs && d2 < HourMs
    requires d1 / MinuteMs == d2 / MinuteMs
    ensures TimeAgo(d1) == TimeAgo(d2)
  {
  }

  // ---------------------------------------------------------------------------
  // Breakdowns

  function StatusOf(o: Order): OrderStatus
  {
    o.status
  }

  function RoleOf(a: Server.Account): Role
  {
    a.user.role
  }

  /** `p.category ?? 'Other'`: only a missing category is renamed; an empty one is kept. */
  function CategoryName(p: Product): string
  {
    p.category.GetOr("Other")
  }

  /** `orderStatusCounts`: one entry per status that occurs, in first-occurrence order. */
  function OrderStatusCounts(orders: seq<Order>): (t: Table<OrderStatus>)
    ensures DistinctKeys(t)
    ensures forall s :: Lookup(t, s) == CountKey(orders, StatusOf, s)
    ensures SumCounts(t) == |orders|
  {
    Tally(orders, StatusOf)
  }

  /** `roleCounts`. */
  function RoleCounts(users: seq<Server.Account>): (t: Table<Role>)
    ensures DistinctKeys(t)
    ensures forall r :: Lookup(t, r) == CountKey(users, RoleOf, r)
    ensures SumCounts(t) == |users|
  {
    Tally(users, RoleOf)
  }

  /** `categoryCounts`: products without a category are counted under `'Other'`. */
  function CategoryCounts(products: seq<Product>): (t: Table<string>)
    ensures DistinctKeys(t)
    ensures forall c :: Lookup(t, c) == CountKey(products, CategoryName, c)
    ensures forall i :: 0 <= i < |t| ==> t[i].1 > 0
    ensures forall c :: HasKey(t, c) <==> exists i :: 0 <= i < |products| && CategoryName(products[i]) == c
    ensures SumCounts(t) == |products|
  {
    Tally(products, CategoryName)
  }

  /** Every product without a category adds one to `'Other'`, and a category-less product makes the key appear. */
  lemma {:induction false} UncategorisedCountAsOther(products: seq<Product>)
    ensures Lookup(CategoryCounts(products), "Other") >=
            |Filter(products, (p: Product) => p.category.None?)|
    ensures (exists i :: 0 <= i < |products| && products[i].category.None?) ==>
            HasKey(CategoryCounts(products), "Other")
    decreases |products|
  {
    if |products| > 0 {
      var init := products[..|products| - 1];
      UncategorisedCountAsOther(init);
      assert CountKey(products, CategoryName, "Other") ==
             CountKey(init, CategoryName, "Other") + (if CategoryName(products[|products| - 1]) == "Other" then 1 else 0);
    }
    if exists i :: 0 <= i < |products| && products[i].category.None? {
      var i :| 0 <= i < |products| && products[i].category.None?;
      assert CategoryName(products[i]) == "Other";
    }
  }

  // ---------------------------------------------------------------------------
  // topCategories

  /** Counts never grow from left to right. */
  predicate NonIncreasing<K>(t: Table<K>)
  {
    forall i, j :: 0 <= i < j < |t| ==> t[i].1 >= t[j].1
  }

  /** The tail of a non-increasing table is non-increasing, and no entry of it exceeds the head. */
  lemma TailNonIncreasing<K>(t: Table<K>)
    requires NonIncreasing(t) && |t| > 0
    ensures NonIncreasing(t[1..])
    ensures forall x :: x in t[1..] ==> x.1 <= t[0].1
  {
    forall i, j | 0 <= i < j < |t[1..]| ensures t[1..][i].1 >= t[1..][j].1 {
      assert t[1..][i] == t[i + 1] && t[1..][j] == t[j + 1];
    }
    forall x | x in t[1..] ensures x.1 <= t[0].1 {
      var m :| 0 <= m < |t[1..]| && t[1..][m] == x;
      assert t[m + 1] == x;
    }
  }

  /** An entry no smaller than every entry of a non-increasing table can go in front of it. */
  lemma ConsNonIncreasing<K>(x: (K, nat), rest: Table<K>)
    requires NonIncreasing(rest)
    requires forall k :: 0 <= k < |rest| ==> rest[k].1 <= x.1
    ensures NonIncreasing([x] + rest)
  {
    var r := [x] + rest;
    forall i, j | 0 <= i < j < |r| ensures r[i].1 >= r[j].1 {
      assert r[j] == rest[j - 1];
      if i > 0 {
        assert r[i] == rest[i - 1];
      }
    }
  }

  /** Puts `e` after every entry with a count at least as large, so equal counts keep their order. */
  function Insert<K>(e: (K, nat), t: Table<K>): Table<K>
  {
    if |t| == 0 then [e]
    else if t[0].1 < e.1 then [e] + t
    else [t[0]] + Insert(e, t[1..])
  }

  /** Inserting into a non-increasing table keeps it non-increasing and adds exactly `e`. */
  lemma {:induction false} InsertSorts<K>(e: (K, nat), t: Table<K>)
    requires NonIncreasing(t)
    ensures NonIncreasing(Insert(e, t))
    ensures multiset(Insert(e, t)) == multiset(t) + multiset{e}
    ensures |Insert(e, t)| == |t| + 1
    decreases |t|
  {
    if |t| == 0 {
    } else if t[0].1 < e.1 {
      ConsNonIncreasing(e, t);
    } else {
      var tail := t[1..];
      TailNonIncreasing(t);
      InsertSorts(e, tail);
      var rest := Insert(e, tail);
      assert forall k :: 0 <= k < |rest| ==> rest[k].1 <= t[0].1 by {
        forall k | 0 <= k < |rest| ensures rest[k].1 <= t[0].1 {
          assert rest[k] in multiset(rest);
        }
      }
      ConsNonIncreasing(t[0], rest);
      assert t == [t[0]] + tail;
    }
  }

  /** `entries.sort((a, b) => b[1] - a[1])`: a stable sort by count, largest first. */
  function SortByCount<K(!new)>(t: Table<K>): (r: Table<K>)
    ensures NonIncreasing(r)
    ensures multiset(r) == multiset(t)
    ensures |r| == |t|
    decreases |t|
  {
    if |t| == 0 then []
    else
      var init := t[..|t| - 1];
      assert t == init + [t[|t| - 1]];
      InsertSorts(t[|t| - 1], SortByCount(init));
      Insert(t[|t| - 1], SortByCount(init))
  }

  /** The entries with count `c`, in table order. */
  function WithCount<K>(t: Table<K>, c: nat): Table<K>
    decreases |t|
  {
    if |t| == 0 then [] else (if t[0].1 == c then [t[0]] else []) + WithCount(t[1..], c)
  }

  lemma {:induction false} WithCountAppend<K>(a: Table<K>, b: Table<K>, c: nat)
    ensures WithCount(a + b, c) == WithCount(a, c) + WithCount(b, c)
    decreases |a|
  {
    if |a| > 0 {
      assert (a + b)[1..] == a[1..] + b;
      WithCountAppend(a[1..], b, c);
    } else {
      assert a + b == b;
    }
  }

  lemma {:induction false} WithCountNone<K>(t: Table<K>, c: nat)
    requires forall i :: 0 <= i < |t| ==> t[i].1 != c
    ensures WithCount(t, c) == []
    decreases |t|
  {
    if |t| > 0 {
      WithCountNone(t[1..], c);
    }
  }

  /** A one-entry table has its entry among those of count `c` exactly when that is its count. */
  lemma WithCountSingle<K>(x: (K, nat), c: nat)
    ensures WithCount([x], c) == if x.1 == c then [x] else []
  {
    assert [x][1..] == [];
  }

  /** Inserting `e` puts it after every entry that has its count. */
  lemma {:induction false} InsertAfterEquals<K(!new)>(e: (K, nat), s: Table<K>, c: nat)
    requires NonIncreasing(s)
    ensures WithCount(Insert(e, s), c) == WithCount(s, c) + (if e.1 == c then [e] else [])
    decreases |s|
  {
    WithCountSingle(e, c);
    if |s| == 0 {
      assert Insert(e, s) == [e];
    } else if s[0].1 < e.1 {
      assert Insert(e, s) == [e] + s;
      if e.1 == c {
        WithCountNone(s, c);
      }
      WithCountAppend([e], s, c);
    } else {
      var rest := s[1..];
      TailNonIncreasing(s);
      assert Insert(e, s) == [s[0]] + Insert(e, rest);
      InsertAfterEquals(e, rest, c);
      WithCountAppend([s[0]], Insert(e, rest), c);
      WithCountAppend([s[0]], rest, c);
      assert [s[0]] + rest == s;
    }
  }

  /** The sort is stable: entries with equal counts stay in the order they had. */
  lemma {:induction false} SortIsStable<K(!new)>(t: Table<K>, c: nat)
    ensures WithCount(SortByCount(t), c) == WithCount(t, c)
    decreases |t|
  {
    if |t| > 0 {
      var init := t[..|t| - 1];
      var x := t[|t| - 1];
      var sorted := SortByCount(init);
      assert SortByCount(t) == Insert(x, sorted);
      SortIsStable(init, c);
      InsertAfterEquals(x, sorted, c);
      WithCountAppend(init, [x], c);
      WithCountSingle(x, c);
      assert init + [x] == t;
    }
  }

  function Min(a: int, b: int): int
  {
    if a < b then a else b
  }

  /** The first five entries of a table sorted by count. */
  function TopFive<K(!new)>(t: Table<K>): (r: Table<K>)
    ensures |r| == Min(5, |t|)
    ensures NonIncreasing(r)
    ensures r == SortByCount(t)[..|r|]
  {
    var sorted := SortByCount(t);
    sorted[..Min(5, |sorted|)]
  }

  /**
   * In a table with distinct keys, each of the top five carries its key's count, and
   * every key left out has a count no larger than any listed one.
   */
  lemma TopFiveAreTop<K(!new)>(t: Table<K>)
    requires DistinctKeys(t)
    ensures var r := TopFive(t);
            forall i :: 0 <= i < |r| ==> Lookup(t, r[i].0) == r[i].1 && r[i] in t
    ensures var r := TopFive(t);
            forall k, i :: 0 <= k < |t| && (forall j :: 0 <= j < |r| ==> r[j].0 != t[k].0) && 0 <= i < |r| ==>
              t[k].1 <= r[i].1
  {
    var sorted := SortByCount(t);
    var r := TopFive(t);
    forall i | 0 <= i < |r| ensures Lookup(t, r[i].0) == r[i].1 && r[i] in t {
      assert r[i] == sorted[i];
      EntryIsCount(t, sorted, i);
    }
    forall k, i | 0 <= k < |t| && (forall j :: 0 <= j < |r| ==> r[j].0 != t[k].0) && 0 <= i < |r|
      ensures t[k].1 <= r[i].1
    {
      LeftOutIsSmaller(t, k, i);
    }
  }

  lemma LeftOutIsSmaller<K(!new)>(t: Table<K>, k: nat, i: nat)
    requires k < |t| && i < |TopFive(t)|
    requires forall j :: 0 <= j < |TopFive(t)| ==> TopFive(t)[j].0 != t[k].0
    ensures t[k].1 <= TopFive(t)[i].1
  {
    var sorted := SortByCount(t);
    var r := TopFive(t);
    assert t[k] in multiset(t);
    assert t[k] in sorted;
    forall j | 0 <= j < |r| ensures sorted[j].0 != t[k].0 {
      assert sorted[j] == r[j];
    }
    BelowPrefix(sorted, |r|, t[k], i);
    assert sorted[i] == r[i];
  }

  /**
   * In a non-increasing table, an entry whose key is none of the first `n` keys has a
   * count no larger than any of those `n` entries.
   */
  lemma BelowPrefix<K>(s: Table<K>, n: nat, x: (K, nat), i: nat)
    requires NonIncreasing(s) && x in s
    requires i < n <= |s|
    requires forall j :: 0 <= j < n ==> s[j].0 != x.0
    ensures x.1 <= s[i].1
  {
    var m :| 0 <= m < |s| && s[m] == x;
    assert n <= m;
  }

  /** `topCategories`: the five categories with the most products, largest first. */
  function TopCategories(products: seq<Product>): (r: Table<string>)
    ensures |r| == Min(5, |CategoryCounts(products)|)
    ensures NonIncreasing(r)
    ensures forall i :: 0 <= i < |r| ==> r[i].1 == CountKey(products, CategoryName, r[i].0) && r[i].1 > 0
  {
    var t := CategoryCounts(products);
    TopFiveAreTop(t);
    var r := TopFive(t);
    assert forall i :: 0 <= i < |r| ==> r[i] in t;
    r
  }

  /** Every category that occurs but is not listed has no more products than any listed one. */
  lemma TopCategoriesAreTop(products: seq<Product>, c: string)
    requires exists p :: p in products && CategoryName(p) == c
    requires forall k :: 0 <= k < |TopCategories(products)| ==> TopCategories(products)[k].0 != c
    ensures forall i :: 0 <= i < |TopCategories(products)| ==>
              CountKey(products, CategoryName, c) <= TopCategories(products)[i].1
  {
    var t := CategoryCounts(products);
    var p :| p in products && CategoryName(p) == c;
    var pi :| 0 <= pi < |products| && products[pi] == p;
    assert HasKey(t, c);
    var k :| 0 <= k < |t| && t[k].0 == c;
    LookupAt(t, k);
    TopFiveAreTop(t);
  }

  /** An entry of a reordered count table carries the table's count for its key. */
  lemma EntryIsCount<K(!new)>(t: Table<K>, sorted: Table<K>, i: nat)
    requires DistinctKeys(t)
    requires multiset(sorted) == multiset(t)
    requires i < |sorted|
    ensures Lookup(t, sorted[i].0) == sorted[i].1
    ensures sorted[i] in t
  {
    assert sorted[i] in multiset(t);
    var k :| 0 <= k < |t| && t[k] == sorted[i];
    LookupAt(t, k);
  }

  // ---------------------------------------------------------------------------
  // Sellers, reports, revenue scale

  function IsVerified(s: SellerProfile): bool
  {
    s.isVerified
  }

  /** `verifiedSellers` and `unverifiedSellers`: every seller is counted on exactly one side. */
  function SellerSplit(sellers: seq<SellerProfile>): (r: (nat, nat))
    ensures r.0 + r.1 == |sellers|
    ensures r.0 == CountKey(sellers, IsVerified, true)
    ensures r.1 == CountKey(sellers, IsVerified, false)
  {
    var verified := (s: SellerProfile) => s.isVerified;
    var unverified := (s: SellerProfile) => !s.isVerified;
    FilterComplement(sellers, verified, unverified);
    FilterCountsKey(sellers, verified, IsVerified, true);
    FilterCountsKey(sellers, unverified, IsVerified, false);
    (|Filter(sellers, verified)|, |Filter(sellers, unverified)|)
  }

  /** The overview's `pendingReports`: the pending ones, in their order. */
  function PendingReports(reports: seq<Report>): (r: seq<Report>)
    ensures IsSubsequence(r, reports)
    ensures forall x :: x in r <==> x in reports && x.status == "pending"
  {
    FilterIsSubsequence(reports, Server.IsPending);
    Filter(reports, Server.IsPending)
  }

  /** The overview's badge shows the same number as the server's `pendingReports`. */
  lemma PendingBadgeMatchesServer(reports: seq<Report>, users: Option<Server.Db>, sellers: Option<seq<SellerProfile>>,
                                  products: Option<seq<Product>>, orders: Option<seq<Order>>)
    ensures |PendingReports(reports)| == Server.AdminCounts(users, sellers, products, orders, Some(reports)).pendingReports
  {
    FilterCountsKey(reports, Server.IsPending, (r: Report) => r.status, "pending");
  }

  /**
   * `maxRev = Math.max(...revenues, 1)`: the chart's scale is at least 1, at least every
   * month's revenue, and either 1 or one of the revenues.
   */
  method MaxRevenue(revenues: seq<int>) returns (m: int)
    ensures m >= 1
    ensures forall i :: 0 <= i < |revenues| ==> revenues[i] <= m
    ensures m == 1 || m in revenues
  {
    m := 1;
    for i := 0 to |revenues|
      invariant m >= 1
      invariant forall k :: 0 <= k < i ==> revenues[k] <= m
      invariant m == 1 || m in revenues[..i]
    {
      if revenues[i] > m {
        m := revenues[i];
      }
    }
    assert revenues[..|revenues|] == revenues;
  }
}
