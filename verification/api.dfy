/**
 * The client's request construction: the query-string builder, the product-filter to
 * query-parameter mapping of `productsApi.getAll`, and the cart record `cartApi.addItem`
 * posts. Parameter records keep their keys in insertion order, as `Object.entries` does
 * for non-numeric keys.
 */
module Api {
  import opened Wrappers
  import opened Seqs
  import opened Strings
  import opened Uri
  import opened Types
  import opened CartSync

  /** A parameter value: `undefined`, a string, a number or a boolean. */
  datatype ParamValue = Undefined | Text(text: string) | Number(n: int) | Flag(b: bool)

  /** A parameter record: keys with their values, in insertion order. */
  type Record<K> = seq<(K, ParamValue)>

  type Params = Record<string>

  /** The position of the first entry with key `k` at or after `from`, if any. */
  function KeyIndex<K(==)>(params: Record<K>, k: K, from: nat): (r: Option<nat>)
    requires from <= |params|
    ensures r.Some? ==> from <= r.value < |params| && params[r.value].0 == k
    ensures r.None? ==> forall i :: from <= i < |params| ==> params[i].0 != k
    decreases |params| - from
  {
    if from == |params| then None
    else if params[from].0 == k then Some(from)
    else KeyIndex(params, k, from + 1)
  }

  /** `params[k] = v`: an existing key keeps its position and takes the new value, a new key goes last. */
  function Set<K(==)>(params: Record<K>, k: K, v: ParamValue): (r: Record<K>)
    ensures (forall i :: 0 <= i < |params| ==> params[i].0 != k) ==> r == params + [(k, v)]
    ensures (exists i :: 0 <= i < |params| && params[i].0 == k) ==> |r| == |params|
    ensures forall i :: 0 <= i < |params| ==> r[i].0 == params[i].0
    ensures forall i :: 0 <= i < |params| && params[i].0 != k ==> r[i] == params[i]
    ensures exists i :: 0 <= i < |r| && r[i] == (k, v)
  {
    match KeyIndex(params, k, 0)
    case Some(i) =>
      var r := params[i := (k, v)];
      assert r[i] == (k, v);
      r
    case None =>
      var r := params + [(k, v)];
      assert r[|params|] == (k, v);
      r
  }

  /** The values `buildQuery` keeps: not `undefined`, not `''`, not `'All'`. */
  predicate Survives(entry: (string, ParamValue))
  {
    !(entry.1.Undefined? || entry.1 == Text("") || entry.1 == Text("All"))
  }

  /** `String(v)`. */
  function ValueString(v: ParamValue): string
  {
    match v
    case Undefined => "undefined"
    case Text(s) => s
    case Number(n) => IntToString(n)
    case Flag(b) => if b then "true" else "false"
  }

  /** `` `${encodeURIComponent(k)}=${encodeURIComponent(String(v))}` ``. */
  function PairString(entry: (string, ParamValue)): (s: string)
    ensures '=' in s && '&' !in s
  {
    var ek := Encode(entry.0);
    var ev := Encode(ValueString(entry.1));
    EncodedHasNoSeparators(ek);
    EncodedHasNoSeparators(ev);
    var s := ek + "=" + ev;
    assert s[|ek|] == '=';
    s
  }

  function Pairs(kept: Params): (r: seq<string>)
    ensures |r| == |kept|
    ensures forall i :: 0 <= i < |kept| ==> r[i] == PairString(kept[i])
  {
    seq(|kept|, i requires 0 <= i < |kept| => PairString(kept[i]))
  }

  /** The surviving entries, in their original order. */
  function Kept(params: Params): (r: Params)
    ensures forall e :: e in r <==> e in params && Survives(e)
    ensures IsSubsequence(r, params)
  {
    FilterIsSubsequence(params, Survives);
    Filter(params, Survives)
  }

  /** `buildQuery(params)`. */
  function BuildQuery(params: Params): (q: string)
    ensures q == "" <==> |Kept(params)| == 0
    ensures q != "" ==> q[0] == '?' && q[1..] == Join(Pairs(Kept(params)), '&')
  {
    var kept := Kept(params);
    var body := Join(Pairs(kept), '&');
    JoinEmptyIffNone(Pairs(kept));
    if body == "" then "" else "?" + body
  }

  /** Joining non-empty pieces gives the empty string only for no pieces. */
  lemma JoinEmptyIffNone(xs: seq<string>)
    requires forall i :: 0 <= i < |xs| ==> '=' in xs[i]
    ensures Join(xs, '&') == "" <==> |xs| == 0
  {
    if |xs| == 1 {
      assert '=' in xs[0];
    } else if |xs| > 1 {
      assert Join(xs, '&') == xs[0] + ['&'] + Join(xs[1..], '&');
    }
  }

  /** Reads a query string back into its `key=value` pieces, still encoded. */
  function ParseQuery(q: string): seq<(string, string)>
  {
    if |q| == 0 then []
    else
      var parts := Split(q[1..], '&');
      seq(|parts|, i requires 0 <= i < |parts| => CutAt(parts[i], '='))
  }

  /**
   * Parsing what `buildQuery` produced gives back every surviving entry, in order, as
   * its encoded key and encoded value; so no `&` or `=` inside a key or value can split
   * a pair, and nothing is dropped or added.
   */
  lemma ParseBuildQuery(params: Params)
    ensures var kept := Kept(params);
            var parsed := ParseQuery(BuildQuery(params));
            |parsed| == |kept| &&
            forall i :: 0 <= i < |kept| ==>
              parsed[i] == (Encode(kept[i].0), Encode(ValueString(kept[i].1)))
  {
    var kept := Kept(params);
    var pairs := Pairs(kept);
    var q := BuildQuery(params);
    if |kept| > 0 {
      forall i | 0 <= i < |pairs| ensures '&' !in pairs[i] {
        assert pairs[i] == PairString(kept[i]);
      }
      SplitJoin(pairs, '&');
      assert Split(q[1..], '&') == pairs;
      forall i | 0 <= i < |kept| ensures CutAt(pairs[i], '=') == (Encode(kept[i].0), Encode(ValueString(kept[i].1))) {
        var ek := Encode(kept[i].0);
        var ev := Encode(ValueString(kept[i].1));
        EncodedHasNoSeparators(ek);
        assert pairs[i] == ek + ['='] + ev;
        CutAtFirst(ek, ev, '=');
      }
    }
  }

  /** Cutting `x + [sep] + y` at its first `sep` gives `x` and `y` when `x` has no `sep`. */
  lemma CutAtFirst(x: string, y: string, sep: char)
    requires sep !in x
    ensures CutAt(x + [sep] + y, sep) == (x, y)
  {
    var s := x + [sep] + y;
    assert s[|x|] == sep;
    var r := CutAt(s, sep);
    CutUnique(x, y, r.0, r.1, sep);
  }

  lemma CutUnique(x: string, y: string, a: string, b: string, sep: char)
    requires sep !in x && sep !in a
    requires x + [sep] + y == a + [sep] + b
    ensures x == a && y == b
  {
    var s := x + [sep] + y;
    assert forall i :: 0 <= i < |x| ==> s[i] == x[i];
    assert forall i :: 0 <= i < |a| ==> s[i] == a[i];
    assert s[|x|] == sep && s[|a|] == sep;
    assert |x| == |a|;
    assert x == s[..|x|] && a == s[..|a|];
    assert y == s[|x| + 1..] && b == s[|a| + 1..];
  }

  /** A parameter whose value is `'All'` never reaches the query string, whatever its key. */
  lemma AllIsDropped(params: Params, k: string)
    ensures forall i :: 0 <= i < |Kept(params)| ==> Kept(params)[i] != (k, Text("All"))
  {
    forall i | 0 <= i < |Kept(params)| ensures Kept(params)[i] != (k, Text("All")) {
      assert Kept(params)[i] in Kept(params);
    }
  }

  // ---------------------------------------------------------------------------
  // `productsApi.getAll`

  datatype SortBy = PriceAsc | PriceDesc | ByRating | Newest

  /** `ProductFilters`; every field may be absent. */
  datatype ProductFilters = ProductFilters(
    category: Option<string>,
    minPrice: Option<int>,
    maxPrice: Option<int>,
    minRating: Option<int>,
    search: Option<string>,
    sortBy: Option<SortBy>)

  /** The keys `getAll` assigns. */
  datatype FilterKey = Category | RatingGte | PriceGte | PriceLte | SortKey | OrderKey | Query

  function KeyName(k: FilterKey): string
  {
    match k
    case Category => "category"
    case RatingGte => "rating_gte"
    case PriceGte => "price_gte"
    case PriceLte => "price_lte"
    case SortKey => "_sort"
    case OrderKey => "_order"
    case Query => "q"
  }

  /** The one-entry record when `cond` holds, the empty one otherwise. */
  function When<K>(cond: bool, k: K, v: ParamValue): Record<K>
  {
    if cond then [(k, v)] else []
  }

  /** `if (cond) params[k] = v`. */
  function PutIf<K(==)>(params: Record<K>, cond: bool, k: K, v: ParamValue): (r: Record<K>)
    ensures (forall i :: 0 <= i < |params| ==> params[i].0 != k) ==> r == params + When(cond, k, v)
  {
    if cond then Set(params, k, v) else params
  }

  /** The sort key and direction a `sortBy` value asks for, if any. */
  function SortParams(sortBy: Option<SortBy>): Option<(string, string)>
  {
    match sortBy
    case Some(PriceAsc) => Some(("price", "asc"))
    case Some(PriceDesc) => Some(("price", "desc"))
    case Some(ByRating) => Some(("rating", "desc"))
    case _ => None
  }

  /** One `if (cond) params[key] = value` of `getAll`. */
  datatype Assignment = Assignment(cond: bool, key: FilterKey, value: ParamValue)

  /**
   * The conditional assignments of `getAll`, in source order: `category` when set and
   * not `'All'`, `rating_gte` when the minimum rating is non-zero, the price bounds
   * whenever given (zero included), the sort pair for the three sorting choices, and
   * `q` for a non-empty search.
   */
  function Assignments(f: ProductFilters): seq<Assignment>
  {
    var sort := SortParams(f.sortBy);
    [ Assignment(f.category.Some? && f.category.value != "" && f.category.value != "All",
                 Category, Text(f.category.GetOr(""))),
      Assignment(f.minRating.Some? && f.minRating.value != 0, RatingGte, Number(f.minRating.GetOr(0))),
      Assignment(f.minPrice.Some?, PriceGte, Number(f.minPrice.GetOr(0))),
      Assignment(f.maxPrice.Some?, PriceLte, Number(f.maxPrice.GetOr(0))),
      Assignment(sort.Some?, SortKey, Text(sort.GetOr(("", "")).0)),
      Assignment(sort.Some?, OrderKey, Text(sort.GetOr(("", "")).1)),
      Assignment(f.search.Some? && f.search.value != "", Query, Text(f.search.GetOr(""))) ]
  }

  /** Running assignments one after the other. */
  function Perform(params: Record<FilterKey>, steps: seq<Assignment>): Record<FilterKey>
    decreases |steps|
  {
    if |steps| == 0 then params
    else Perform(PutIf(params, steps[0].cond, steps[0].key, steps[0].value), steps[1..])
  }

  /** The entries of the assignments whose condition holds, in order. */
  function Selected(steps: seq<Assignment>): Record<FilterKey>
    decreases |steps|
  {
    if |steps| == 0 then []
    else When(steps[0].cond, steps[0].key, steps[0].value) + Selected(steps[1..])
  }

  /** Each key of `getAll` is assigned after all the keys before it. */
  predicate InKeyOrder(steps: seq<Assignment>)
  {
    forall i, j :: 0 <= i < j < |steps| ==> Rank(steps[i].key) < Rank(steps[j].key)
  }

  lemma AssignmentsInKeyOrder(f: ProductFilters)
    ensures InKeyOrder(Assignments(f))
  {
  }

  /** Assignments to keys in increasing order, none present yet, append exactly the selected entries. */
  lemma {:induction false} PerformInOrder(params: Record<FilterKey>, steps: seq<Assignment>)
    requires InKeyOrder(steps)
    requires |steps| > 0 ==> Below(params, Rank(steps[0].key))
    ensures Perform(params, steps) == params + Selected(steps)
    decreases |steps|
  {
    if |steps| > 0 {
      var s := steps[0];
      var next := PutIf(params, s.cond, s.key, s.value);
      PutInOrder(params, s.cond, s.key, s.value);
      InKeyOrderTail(steps);
      if |steps| > 1 {
        assert Rank(s.key) < Rank(steps[1].key);
        assert steps[1..][0] == steps[1];
      }
      PerformInOrder(next, steps[1..]);
      PerformStep(params, steps, next);
    }
  }

  /** Dropping the first assignment keeps the rest in key order. */
  lemma InKeyOrderTail(steps: seq<Assignment>)
    requires InKeyOrder(steps) && |steps| > 0
    ensures InKeyOrder(steps[1..])
  {
    var rest := steps[1..];
    forall i, j | 0 <= i < j < |rest| ensures Rank(rest[i].key) < Rank(rest[j].key) {
      assert rest[i] == steps[i + 1] && rest[j] == steps[j + 1];
    }
  }

  /** One step of `PerformInOrder`: the first assignment appends its entry, the rest theirs. */
  lemma PerformStep(params: Record<FilterKey>, steps: seq<Assignment>, next: Record<FilterKey>)
    requires |steps| > 0
    requires next == params + When(steps[0].cond, steps[0].key, steps[0].value)
    requires next == PutIf(params, steps[0].cond, steps[0].key, steps[0].value)
    requires Perform(next, steps[1..]) == next + Selected(steps[1..])
    ensures Perform(params, steps) == params + Selected(steps)
  {
    var w := When(steps[0].cond, steps[0].key, steps[0].value);
    assert Selected(steps) == w + Selected(steps[1..]);
    assert next + Selected(steps[1..]) == params + (w + Selected(steps[1..]));
  }

  /** The parameter record `getAll` builds: exactly the entries whose condition holds, in source order. */
  function FilterParams(f: ProductFilters): (params: Record<FilterKey>)
    ensures params == Selected(Assignments(f))
  {
    AssignmentsInKeyOrder(f);
    PerformInOrder([], Assignments(f));
    Perform([], Assignments(f))
  }

  /** The position of each key in the order `getAll` assigns them. */
  function Rank(k: FilterKey): nat
  {
    match k
    case Category => 0
    case RatingGte => 1
    case PriceGte => 2
    case PriceLte => 3
    case SortKey => 4
    case OrderKey => 5
    case Query => 6
  }

  /** Every key of the record comes before rank `n`. */
  predicate Below(params: Record<FilterKey>, n: int)
  {
    forall i :: 0 <= i < |params| ==> Rank(params[i].0) < n
  }

  /** Assigning a key later than all present ones appends it, and keeps the keys in order. */
  lemma PutInOrder(params: Record<FilterKey>, cond: bool, k: FilterKey, v: ParamValue)
    requires Below(params, Rank(k))
    ensures PutIf(params, cond, k, v) == params + When(cond, k, v)
    ensures forall n :: n > Rank(k) ==> Below(PutIf(params, cond, k, v), n)
  {
    assert forall i :: 0 <= i < |params| ==> params[i].0 != k;
  }

  /** The record with its keys spelled as strings. */
  function Named(params: Record<FilterKey>): (r: Params)
    ensures |r| == |params|
    ensures forall i :: 0 <= i < |params| ==> r[i] == (KeyName(params[i].0), params[i].1)
  {
    seq(|params|, i requires 0 <= i < |params| => (KeyName(params[i].0), params[i].1))
  }

  /** The request path of `getAll(filters)`. */
  function ProductsPath(f: ProductFilters): string
  {
    "/products" + BuildQuery(Named(FilterParams(f)))
  }

  /** An entry is in the selected record exactly when some assignment with a true condition made it. */
  lemma {:induction false} SelectedHas(steps: seq<Assignment>, e: (FilterKey, ParamValue))
    ensures e in Selected(steps) <==> exists i :: 0 <= i < |steps| && steps[i].cond && e == (steps[i].key, steps[i].value)
    decreases |steps|
  {
    if |steps| > 0 {
      SelectedHas(steps[1..], e);
      var w := When(steps[0].cond, steps[0].key, steps[0].value);
      assert Selected(steps) == w + Selected(steps[1..]);
      if exists i :: 0 <= i < |steps| && steps[i].cond && e == (steps[i].key, steps[i].value) {
        var i :| 0 <= i < |steps| && steps[i].cond && e == (steps[i].key, steps[i].value);
        if i > 0 {
          assert steps[1..][i - 1] == steps[i];
        }
      }
      if e in Selected(steps[1..]) {
        var i :| 0 <= i < |steps[1..]| && steps[1..][i].cond && e == (steps[1..][i].key, steps[1..][i].value);
        assert steps[i + 1] == steps[1..][i];
      }
    }
  }

  /** Assignment `i` of `getAll` is to the key of rank `i`. */
  lemma AssignmentRanks(f: ProductFilters)
    ensures forall i :: 0 <= i < |Assignments(f)| ==> Rank(Assignments(f)[i].key) == i
    ensures |Assignments(f)| == 7
  {
  }

  /**
   * Which entries `getAll` sends: `(k, v)` is in the record exactly when the assignment
   * to `k` has a true condition and `v` is its value. So `category` only when set,
   * non-empty and not `'All'`; `rating_gte` only for a non-zero rating; each price bound
   * whenever given, zero included; the sort pair only for the three sorting choices;
   * `q` only for a non-empty search.
   */
  lemma GetAllEntries(f: ProductFilters, k: FilterKey, v: ParamValue)
    ensures (k, v) in FilterParams(f) <==>
              Assignments(f)[Rank(k)].cond && Assignments(f)[Rank(k)].value == v
  {
    var steps := Assignments(f);
    AssignmentRanks(f);
    SelectedHas(steps, (k, v));
    if (k, v) in FilterParams(f) {
      var i :| 0 <= i < |steps| && steps[i].cond && (k, v) == (steps[i].key, steps[i].value);
      assert i == Rank(k);
    }
    if steps[Rank(k)].cond && steps[Rank(k)].value == v {
      assert steps[Rank(k)].key == k by {
        assert Rank(steps[Rank(k)].key) == Rank(k);
      }
    }
  }

  /** Only `newest` and no choice at all leave the request unsorted. */
  lemma SortChoices(sortBy: Option<SortBy>)
    ensures SortParams(sortBy).None? <==> sortBy.None? || sortBy == Some(Newest)
    ensures sortBy == Some(PriceAsc) ==> SortParams(sortBy) == Some(("price", "asc"))
    ensures sortBy == Some(PriceDesc) ==> SortParams(sortBy) == Some(("price", "desc"))
    ensures sortBy == Some(ByRating) ==> SortParams(sortBy) == Some(("rating", "desc"))
  {
  }

  /** For the three sorting choices `_sort` and `_order` carry the field and direction. */
  lemma SortPair(f: ProductFilters)
    requires SortParams(f.sortBy).Some?
    ensures (SortKey, Text(SortParams(f.sortBy).value.0)) in FilterParams(f)
    ensures (OrderKey, Text(SortParams(f.sortBy).value.1)) in FilterParams(f)
  {
    var sort := SortParams(f.sortBy);
    var s := Assignments(f);
    assert s[4] == Assignment(true, SortKey, Text(sort.value.0));
    assert s[5] == Assignment(true, OrderKey, Text(sort.value.1));
    GetAllEntries(f, SortKey, Text(sort.value.0));
    GetAllEntries(f, OrderKey, Text(sort.value.1));
  }

  /** For `newest` or no choice neither `_sort` nor `_order` is sent. */
  lemma NoSortPair(f: ProductFilters)
    requires SortParams(f.sortBy).None?
    ensures forall e :: e in FilterParams(f) ==> e.0 != SortKey && e.0 != OrderKey
  {
    forall e | e in FilterParams(f) ensures e.0 != SortKey && e.0 != OrderKey {
      GetAllEntries(f, e.0, e.1);
    }
  }

  /** Zero counts as "no minimum rating" but as a real price bound. */
  lemma GetAllZeroes(f: ProductFilters)
    ensures f.minRating == Some(0) ==> forall e :: e in FilterParams(f) ==> e.0 != RatingGte
    ensures f.minPrice == Some(0) ==> (PriceGte, Number(0)) in FilterParams(f)
    ensures f.maxPrice == Some(0) ==> (PriceLte, Number(0)) in FilterParams(f)
  {
    GetAllEntries(f, PriceGte, Number(0));
    GetAllEntries(f, PriceLte, Number(0));
    forall e | e in FilterParams(f) ensures f.minRating == Some(0) ==> e.0 != RatingGte {
      GetAllEntries(f, e.0, e.1);
    }
  }

  /** A search for `'All'` is assigned to `q`, but `buildQuery` drops it, so the request carries no search. */
  lemma SearchForAllIsDropped(f: ProductFilters)
    requires f.search == Some("All")
    ensures (Query, Text("All")) in FilterParams(f)
    ensures forall e :: e in Kept(Named(FilterParams(f))) ==> e.0 != "q"
  {
    var p := FilterParams(f);
    GetAllEntries(f, Query, Text("All"));
    forall e | e in Kept(Named(p)) ensures e.0 != "q" {
      assert e in Named(p);
      var j :| 0 <= j < |Named(p)| && Named(p)[j] == e;
      assert p[j] in p;
      GetAllEntries(f, p[j].0, p[j].1);
    }
  }

  /** A zero price bound reaches the query string: `price_gte=0` survives `buildQuery`. */
  lemma ZeroPriceIsSent(f: ProductFilters)
    requires f.minPrice == Some(0)
    ensures ("price_gte", Number(0)) in Kept(Named(FilterParams(f)))
  {
    var p := FilterParams(f);
    GetAllZeroes(f);
    var j :| 0 <= j < |p| && p[j] == (PriceGte, Number(0));
    assert Named(p)[j] == ("price_gte", Number(0));
  }

  // ---------------------------------------------------------------------------
  // `cartApi.addItem`

  /**
   * The record `addItem` posts: id `cart_<userId>_<productId>_<timestamp>`, the caller's
   * user id, and the product's id as `productId`. The timestamp is a parameter.
   */
  function NewCartRecord(userId: string, product: Product, quantity: int, now: nat): (r: CartRecord)
    ensures r.userId == userId && r.productId == product.id && r.product == product && r.quantity == quantity
    ensures IsPrefix("cart_" + userId + "_" + product.id + "_", r.id)
    ensures r.id[|"cart_" + userId + "_" + product.id + "_"|..] == NatToString(now)
  {
    CartRecord("cart_" + userId + "_" + product.id + "_" + NatToString(now), userId, product.id, product, quantity)
  }

  /** Two records for the same user and product posted at different times get different ids. */
  lemma NewCartRecordIdsDiffer(userId: string, product: Product, q1: int, q2: int, t1: nat, t2: nat)
    requires t1 != t2
    ensures NewCartRecord(userId, product, q1, t1).id != NewCartRecord(userId, product, q2, t2).id
  {
    NatToStringInjective(t1, t2);
  }
}
