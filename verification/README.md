# eSellify storefront core, in Dafny

A model of the logic at the centre of the eSellify storefront (a React client and a json-server mock backend). The model covers:

- **Cart engine** (`CartLedger`, `CartSync`, `CartRemote`):
  - the cart reducer, the memoised totals and `isInCart`;
  - the layer that mirrors the cart into the server's `cartItems` collection. That layer has:
    - a `serverIds` index from product id to record id;
    - the session effect, which loads a user's records on sign-in and clears the cart on sign-out;
    - the four operations `addToCart`, `removeFromCart`, `updateQuantity` and `clearCart`.

  Every operation returns its next state and the one remote request it issues. The request's outcome is a parameter (`Reply`). `CartRemote.Apply` gives the effect of that request on the remote store. The central invariant, `CartRemote.Synced`, says that the local cart, the index and the user's remote records agree. The lemmas show which outcomes preserve it and which failed outcomes break it.
- **Session** (`Auth`):
  - the auth reducer and its initial state;
  - the `login`, `register`, `logout` and `updateProfile` flows. Each flow is given the server's answer and records the actions it dispatches and the `{ success, error }` it returns.
- **Request construction** (`Api`, `Uri`):
  - `buildQuery`, with `encodeURIComponent` written out over UTF-8;
  - the filter-to-parameter mapping of `productsApi.getAll`;
  - the record `cartApi.addItem` posts.
- **Mock server** (`Server`):
  - the `/login`, `/register`, `GET /profile` and `PATCH /profile/:id` handlers over a list of stored accounts, with lowdb's `find` as "first match";
  - the integer counts of `GET /adminStats`;
  - how the client's `request` turns an answer into a resolved value or an error message.
- **Order pages** (`Orders`): the status transition table that the seller and admin pages share, their status and search filters, and their per-status counts.
- **Admin overview** (`Overview`):
  - `timeAgo`;
  - the status, role and category breakdowns, and the top five categories;
  - the verified-seller split, the pending-report list and the revenue chart's scale.

`Seqs` and `Strings` hold the generic sequence and string machinery. Examples are filtering, counting by key, insertion-ordered count tables, decimal rendering, `includes`, `toLowerCase`, `replace` and `split`. `Types` holds the shared records.

## Model

| member | source | states |
|---|---|---|
| CartLedger.Reduce | src/context/CartContext.tsx:25-56 | LOAD_CART installs its payload and CLEAR_CART empties the cart. ADD_ITEM bumps every entry of a present product and leaves the rest alone; for an absent product it appends one entry. REMOVE_ITEM, and UPDATE_QTY with a quantity ≤ 0, keep the other products' entries in order, every copy of them: the result is as long as the input less the product's entries. A positive UPDATE_QTY sets the product's quantity. Each of these is a no-op for an absent product. |
| CartLedger.Without | src/context/CartContext.tsx:41 | The filter keeps the entries of other products, in order. Every copy survives: the result is as long as the input less the number of the product's entries. The product is absent afterwards. The filter is a no-op when the product is absent. |
| CartLedger.ReducePreservesWellFormed | src/context/CartContext.tsx:25-56 | Every action except LOAD_CART keeps ids unique and quantities positive. For ADD_ITEM this needs a positive amount. |
| CartLedger.LoadCartDoesNotEnforceShape | src/context/CartContext.tsx:27-28 | LOAD_CART accepts a zero quantity. |
| CartLedger.LoadCartAllowsDuplicates | src/context/CartContext.tsx:27-28 | LOAD_CART accepts two entries for one product. |
| CartLedger.ComputeCart | src/context/CartContext.tsx:88-92 | The two `reduce` loops compute the reference sums: total = Σ price × quantity, and itemCount = Σ quantity. |
| CartLedger.ItemCountBounds | src/context/CartContext.tsx:90 | With positive quantities there are at least as many units as lines. There are zero units only for an empty cart. |
| CartLedger.SumsAppend | src/context/CartContext.tsx:88-92 | Both sums are additive over concatenation. |
| CartLedger.ItemCountAfterAdd | src/context/CartContext.tsx:29-39 | With unique ids, adding `delta` raises the unit count and the product's quantity by exactly `delta`. |
| CartLedger.AddToEntriesSums | src/context/CartContext.tsx:32-36 | The `map` of ADD_ITEM adds `delta` to the product's quantity and changes no other product's quantity. |
| CartLedger.IsInCartAfter | src/context/CartContext.tsx:152-155 | `isInCart` after each kind of action, in both directions. After ADD_ITEM it holds for the added product and for everything present before. After REMOVE_ITEM, non-positive UPDATE_QTY or CLEAR_CART it is false for the affected product. |
| CartLedger.RepeatedAddsAccumulate | src/context/CartContext.tsx:29-39 | A run of adds of one product ends at the old quantity plus the sum of the amounts, and keeps ids unique. |
| CartLedger.AddKeepsUnique | src/context/CartContext.tsx:29-39 | ADD_ITEM never creates a second entry for a product. |
| CartSync.ServerId | src/context/CartContext.tsx:101-102 | The index lookup hits exactly when the product has a non-empty record id, and then returns that id. |
| CartSync.Find | src/context/CartContext.tsx:99 | `find` returns nothing exactly when the product is absent. Otherwise it returns an entry of the cart for that product. |
| CartSync.FindQuantity | src/context/CartContext.tsx:99-103 | With unique ids, the entry `find` returns holds the product's whole quantity. |
| CartSync.AddToCart | src/context/CartContext.tsx:95-111 | The items always take the ADD_ITEM step. When signed in and the product is absent, the operation posts a create, and the index gains the new id only on success. A present product with a record id gets an update to its old quantity plus the amount. A present product without an id gets no call. |
| CartSync.RemoveFromCart | src/context/CartContext.tsx:113-123 | The items take the REMOVE_ITEM step. An indexed product's record is deleted, and its index entry is dropped whatever the outcome. Anonymous or unindexed products get no call. |
| CartSync.UpdateQuantity | src/context/CartContext.tsx:125-141 | The items take the UPDATE_QTY step. For an indexed product, a quantity ≤ 0 deletes the record and drops the entry only on success. A positive quantity sends that absolute quantity. |
| CartSync.ClearCart | src/context/CartContext.tsx:143-150 | The cart is emptied. When signed in, all of the user's records are deleted and the index is emptied whatever the outcome. |
| CartSync.ItemsOf | src/context/CartContext.tsx:82 | A fetched record list loads one line per record, with that record's product and quantity. |
| CartSync.IndexOf | src/context/CartContext.tsx:80-81 | The rebuilt index has a key for exactly the products that have records. The last record for a product wins. |
| CartSync.IdentityChanged | src/context/CartContext.tsx:70-86 | An unchanged identity does nothing. Signing out clears items and index without a call. Signing in fetches the user's records; a successful fetch replaces items and index with them, and a failed one keeps both. |
| CartSync.AnonymousHasNoIndexInvariant | src/context/CartContext.tsx:70-75 | While nobody is signed in the index stays empty, initially and after every operation. |
| CartSync.AnonymousMakesNoCalls | src/context/CartContext.tsx:95-150 | Anonymous cart operations never touch the server. |
| CartSync.ItemsIgnoreReplies | src/context/CartContext.tsx:95-150 | The items and the request of every operation do not depend on the request's outcome. |
| CartSync.OperationsKeepLedgerShape | src/context/CartContext.tsx:95-150 | Operations with positive adds, and loads of well-formed records, keep the cart well-formed. |
| CartSync.SignOutEmptiesCart | src/context/CartContext.tsx:71-74 | After signing out nothing is in the cart, and total and count are zero. |
| CartSync.SignInReplacesCart | src/context/CartContext.tsx:79-82 | After a successful load, a product is in the cart exactly when one of the user's records holds it. |
| CartSync.UpdateToZeroRemoves | src/context/CartContext.tsx:43-45 | A non-positive quantity takes the product out of the cart whatever the outcome. |
| CartSync.RemoveAbsentIsNoOp | src/context/CartContext.tsx:113-123 | Removing an absent, unindexed product changes nothing and calls nothing. |
| CartSync.AddSendsNewTotal | src/context/CartContext.tsx:99-103 | The update `addToCart` sends is the product's new total quantity. |
| CartSync.FailedCreateLeavesProductUnindexed | src/context/CartContext.tsx:106-109 | After a failed create the product is in the cart but has no record id. |
| CartSync.UnindexedProductStaysLocal | src/context/CartContext.tsx:99-104 | A present product without a record id gets no remote call from later adds. |
| CartRemote.Apply | src/services/api.ts:139-157 | A failed call changes no record. Otherwise a create stores the record under its id, an update changes one quantity, a delete removes one id, and a clear removes exactly the user's records. |
| CartRemote.IndexedIffInCart | src/context/CartContext.tsx:66-67 | Under the sync invariant, a product has a record id exactly when it is in the cart. |
| CartRemote.IndexInjective | src/context/CartContext.tsx:66-67 | Under the sync invariant, two indexed products never share a record id. |
| CartRemote.AddAbsentKeepsSync | src/context/CartContext.tsx:105-108 | A successful create with a fresh id keeps cart, index and store in sync. |
| CartRemote.AddPresentKeepsSync | src/context/CartContext.tsx:99-104 | A successful update of a present product keeps them in sync. |
| CartRemote.RemoveKeepsSync | src/context/CartContext.tsx:113-123 | A successful delete keeps them in sync. |
| CartRemote.UpdateKeepsSync | src/context/CartContext.tsx:125-141 | A successful update or delete keeps them in sync. |
| CartRemote.ClearKeepsSync | src/context/CartContext.tsx:143-150 | A successful clear keeps them in sync. |
| CartRemote.ApplyKeepsWellKeyed | src/services/api.ts:139-157 | Every call keeps records stored under their own id. |
| CartRemote.LoadEstablishesSync | src/context/CartContext.tsx:76-85 | Loading a user's records, one per product, establishes the sync invariant from any previous state. |
| CartRemote.FailedRemoveLeavesOrphan | src/context/CartContext.tsx:117-120 | A failed delete still drops the index entry. The record stays on the server unnamed, and the next load brings the removed product back. |
| CartRemote.FailedZeroUpdateThenAddDuplicates | src/context/CartContext.tsx:129-138 | A failed delete at quantity 0 keeps a stale index entry. Adding the product again then creates a second record for it. |
| CartRemote.FailedSwitchKeepsPreviousUsersRecords | src/context/CartContext.tsx:78-83 | When the load fails on a switch between two signed-in users, the first user's ids remain. The second user's removal then deletes the first user's record. |
| Auth.Merge | src/context/AuthContext.tsx:37 | `{ ...user, ...patch }`: each field the patch carries wins, and every other field is kept. |
| Auth.MergeLaws | src/context/AuthContext.tsx:37 | An empty patch is the identity, a full patch replaces the user, and patching is idempotent. |
| Auth.Reduce | src/context/AuthContext.tsx:22-42 | INIT sets the user, and the flag to whether one is given, and stops loading. LOGIN_START only sets loading. LOGIN_SUCCESS signs in. LOGIN_FAILURE only clears loading. LOGOUT signs out. UPDATE_PROFILE merges into a present user and keeps the flags. |
| Auth.InitialIsConsistent | src/context/AuthContext.tsx:44-48 | The initial state has nobody signed in and is loading. |
| Auth.ReducePreservesConsistent | src/context/AuthContext.tsx:22-42 | Every action keeps `isAuthenticated` equal to "a user is present". |
| Auth.ResetsAreConsistent | src/context/AuthContext.tsx:24-33 | INIT, LOGIN_SUCCESS and LOGOUT restore that agreement from any state. |
| Auth.RunPreservesConsistent | src/context/AuthContext.tsx:22-42 | The agreement holds after any sequence of actions. |
| Auth.RunPreservesNotLoading | src/context/AuthContext.tsx:22-42 | Once loading is over, only LOGIN_START sets it again. |
| Auth.Authenticate | src/context/AuthContext.tsx:73-100 | The operation dispatches LOGIN_START and then one more action. It succeeds exactly when the server resolves. On success the state becomes the returned user, signed in and not loading. On failure the session is kept and the message is reported. |
| Auth.SignOut | src/context/AuthContext.tsx:103-107 | One LOGOUT, which leaves nobody signed in. |
| Auth.ProfileUpdate | src/context/AuthContext.tsx:110-120 | With nobody signed in the update is refused with "Not authenticated" and no request. Otherwise the request is for the signed-in id. On success the returned patch is merged. On failure the state is unchanged and the message is reported. |
| Auth.OperationsPreserveConsistent | src/context/AuthContext.tsx:73-120 | All four operations keep the session consistent. |
| Auth.FailedSignInKeepsSession | src/context/AuthContext.tsx:81-83 | A failed sign-in keeps the user and the flag. |
| Uri.Encode | src/services/api.ts:26 | `encodeURIComponent` yields only unreserved characters and escapes, and is never shorter than its input. |
| Uri.UnescapeEncode | src/services/api.ts:26 | Undoing the escapes gives back the UTF-8 bytes of the original string. |
| Uri.Utf8RoundTrip | src/services/api.ts:26 | The UTF-8 encoding of a character decodes back to it. The lead byte gives the length, and the continuation bytes are 10xxxxxx. |
| Uri.EncodeUnreserved | src/services/api.ts:26 | A string of unreserved characters encodes to itself. |
| Api.Kept | src/services/api.ts:25 | Exactly the entries whose value is not undefined, `''` or `'All'` survive, in order. |
| Api.BuildQuery | src/services/api.ts:23-29 | The query is empty exactly when nothing survives. Otherwise it is `?` followed by the encoded pairs joined by `&`. |
| Api.ParseBuildQuery | src/services/api.ts:23-29 | Splitting the query at `&` and `=` gives back each surviving key and value, encoded, in order. Nothing is lost or split. |
| Api.AllIsDropped | src/services/api.ts:25 | A value `'All'` never reaches the query, whatever its key. |
| Api.Set | src/services/api.ts:35-46 | `params[k] = v`: an existing key keeps its place and takes the new value, and a new key goes last. |
| Api.PerformInOrder | src/services/api.ts:35-46 | Assignments to keys not yet present, made in increasing key order, append exactly the entries whose condition holds. |
| Api.FilterParams | src/services/api.ts:33-46 | The record `getAll` builds is exactly the entries whose condition holds, in source order. |
| Api.GetAllEntries | src/services/api.ts:35-46 | An entry is sent exactly when the assignment to its key has a true condition and that value. |
| Api.SortChoices | src/services/api.ts:41-43 | `price-asc` maps to price/asc, `price-desc` to price/desc and `rating` to rating/desc. Only `newest` and no choice leave the request unsorted. |
| Api.SortPair | src/services/api.ts:41-43 | For a sorting choice both `_sort` and `_order` are sent. |
| Api.NoSortPair | src/services/api.ts:41-43 | For no sorting choice neither key is sent. |
| Api.GetAllZeroes | src/services/api.ts:36-38 | A zero rating is dropped, but a zero price bound is sent. |
| Api.SearchForAllIsDropped | src/services/api.ts:23-46 | A search for `'All'` is assigned to `q` and then dropped by `buildQuery`. |
| Api.ZeroPriceIsSent | src/services/api.ts:23-37 | `price_gte=0` survives into the query. |
| Api.NewCartRecord | src/services/api.ts:139-143 | The posted record has id `cart_<user>_<product>_<time>` and carries the user, the product id, the product and the quantity. |
| Api.NewCartRecordIdsDiffer | src/services/api.ts:142 | Posts at different times get different ids. |
| Server.Find | server.cjs:18 | lowdb `find` returns the first matching account, and nothing exactly when none matches. |
| Server.Login | server.cjs:11-30 | A missing email or password answers 400. An unknown email answers 401 "No account found with that email.", and a wrong password 401 "Incorrect password.". Otherwise the answer is 200 with the first account for the email and the token `mock-jwt-<id>`. |
| Server.LoginSucceedsOnlyForStoredCredentials | server.cjs:11-30 | Sign-in succeeds exactly when the first account with the email has that password. The token names the returned user. |
| Server.Register | server.cjs:33-63 | The checks are, in order: 400 for a missing field, 400 for unequal passwords, 409 for a taken email. Otherwise the answer is 201, and exactly one customer account is appended with id `u_<now>`, the generated avatar and today's date. Every error leaves the store unchanged. |
| Server.RegisterThenLogin | server.cjs:11-63 | Right after registering, the same credentials sign in as the new user. |
| Server.RegisterTwice | server.cjs:44-47 | Registering an email again answers 409 and stores nothing. |
| Server.GetProfile | server.cjs:66-77 | The token comes from the query, or else from the header with `Bearer ` removed. The answer is 401 exactly when the token is blank or lacks `mock-jwt-`. Otherwise it is 404 or 200 with the first account whose id is the rest of the token. |
| Server.TokenOpensProfile | server.cjs:66-77 | With unique ids, the token a sign-in hands out opens that user's profile both as a query parameter and as a bearer header. |
| Server.Assign | server.cjs:84-88 | Each patched field wins, and a falsy password leaves the stored one in place. |
| Server.PatchProfileAsWritten | server.cjs:80-92 | An unknown id answers 404. Otherwise the first account is patched and then looked up again by the old id. The answer is 500 when that lookup fails. |
| Server.PatchMovingIdCrashes | server.cjs:86-90 | A patch that changes the only account's id is stored, and the handler then answers 500. |
| Server.PatchMovingIdExample | server.cjs:86-90 | Renaming `u1` to `u2` answers 500, and `u2` is stored. |
| Server.PatchProfile | server.cjs:80-92 | The intended handler: 404 exactly for an unknown id. Otherwise only the first account with the id takes the patch, and the answer is 200 with that account as updated. |
| Server.PatchAsWrittenAgrees | server.cjs:80-92 | When the patch keeps the id, the written handler and the intended one agree. |
| Server.PatchThenProfile | server.cjs:66-92 | After such a patch, `GET /profile` returns what the patch answered. |
| Server.AdminCounts | server.cjs:98-146 | Each total is the length of its collection, and a missing collection counts as empty. `pendingReports` counts the reports whose status is `pending`. |
| Server.Received | src/services/api.ts:7-21 | A 2xx answer resolves with its user. An error answer rejects with its `error`. A JSON answer without `error` rejects with `HTTP <status>`. A body that is not JSON rejects with "Network error". Only answers with a user resolve. |
| Server.SignInAgainstServer | server.cjs:11-30 | Against the server, the client's sign-in succeeds exactly on a 200. A refusal shows the server's message and keeps the session. |
| Orders.ActionsAgree | src/pages/Admin/components/AdminOrders.tsx:184 | The admin page's presence test and the seller page's `?? []` offer actions for the same statuses: exactly those that are neither delivered nor cancelled. |
| Orders.StepAdvances | src/pages/Seller/components/SellerOrders.tsx:17-21 | Every move goes strictly forward, and none leads back to pending. |
| Orders.TerminalStatuses | src/pages/Admin/components/AdminOrders.tsx:76-80 | Exactly delivered and cancelled have no moves. |
| Orders.PathBound | src/pages/Seller/components/SellerOrders.tsx:17-21 | A run of moves visits at most four statuses and never returns to pending. |
| Orders.SellerFiltered | src/pages/Seller/components/SellerOrders.tsx:28 | The `all` tab is every order. A status tab keeps exactly that status's orders, in order, as many as the status count. |
| Orders.AdminFiltered | src/pages/Admin/components/AdminOrders.tsx:60-65 | An order is listed exactly when its lower-cased id or customer id contains the lower-cased search and it is in the tab. The list keeps its order. |
| Orders.EmptySearchIsStatusFilter | src/pages/Admin/components/AdminOrders.tsx:60-65 | With no search, the admin list equals the seller page's list for the same tab. |
| Orders.SearchIgnoresCase | src/pages/Admin/components/AdminOrders.tsx:61-62 | Lower-casing the search changes nothing. |
| Orders.SellerCounts | src/pages/Seller/components/SellerOrders.tsx:36-37 | `all` is the number of orders, each status key is its count, and the keys are distinct. |
| Orders.AdminCounts | src/pages/Admin/components/AdminOrders.tsx:53-58 | Five entries in tab order, each the number of orders with that status. Together they add up to all orders. |
| Overview.AgeOf | src/pages/Admin/components/AdminOverview.tsx:57-64 | Under an hour the age is in minutes, under a day in hours, and beyond that in days. The amount is the floored quotient, so below 60 minutes and below 24 hours. |
| Overview.TimeAgoReadsBack | src/pages/Admin/components/AdminOverview.tsx:57-64 | The text is the number followed by its unit's suffix, and the number parses back to the age. |
| Overview.SameMinuteSameText | src/pages/Admin/components/AdminOverview.tsx:59-60 | Two ages within the same whole minute, under an hour, read the same. |
| Overview.OrderStatusCounts | src/pages/Admin/components/AdminOverview.tsx:73-74 | One entry per status that occurs, with its count. The counts add up to the number of orders. |
| Overview.RoleCounts | src/pages/Admin/components/AdminOverview.tsx:76-77 | One entry per role that occurs, with its count. The counts add up to the number of users. |
| Overview.CategoryCounts | src/pages/Admin/components/AdminOverview.tsx:79-83 | A key exists exactly for each category name that occurs, with its count. A missing category counts as `Other`. |
| Overview.UncategorisedCountAsOther | src/pages/Admin/components/AdminOverview.tsx:81 | Every product without a category adds one to `Other`. |
| Overview.InsertSorts | src/pages/Admin/components/AdminOverview.tsx:84 | Inserting one entry into a table sorted by non-increasing count keeps it sorted and keeps the same entries. |
| Overview.SortByCount | src/pages/Admin/components/AdminOverview.tsx:84 | The sort is a permutation with counts non-increasing. |
| Overview.SortIsStable | src/pages/Admin/components/AdminOverview.tsx:84 | Entries with equal counts keep their order. |
| Overview.TopFiveAreTop | src/pages/Admin/components/AdminOverview.tsx:84 | Each listed entry carries its key's count, and no key left out has more than any listed one. |
| Overview.TopCategories | src/pages/Admin/components/AdminOverview.tsx:84 | At most five categories, largest first, each with its product count. |
| Overview.TopCategoriesAreTop | src/pages/Admin/components/AdminOverview.tsx:84 | A category that occurs but is not listed has no more products than any listed one. |
| Overview.SellerSplit | src/pages/Admin/components/AdminOverview.tsx:90-91 | The verified and unverified counts are the two sides of one split of the sellers. |
| Overview.PendingReports | src/pages/Admin/components/AdminOverview.tsx:70 | Exactly the pending reports, in order. |
| Overview.PendingBadgeMatchesServer | src/pages/Admin/components/AdminOverview.tsx:70 | The overview's pending count is the server's `pendingReports`. |
| Overview.MaxRevenue | src/pages/Admin/components/AdminOverview.tsx:69 | The scale is at least 1 and at least every revenue, and it is either 1 or one of the revenues. |
| Seqs.Tally | src/pages/Admin/components/AdminOverview.tsx:73-83 | The `forEach` counting idiom builds a table with distinct keys. It has a key exactly for the values that occur, each with its count, and the counts add up to the input length. |
| Strings.ReplaceFirst | server.cjs:67-71 | A string `replace` changes nothing when the pattern does not occur. |
| Strings.ReplaceFirstAtFirst | server.cjs:67-71 | When the pattern occurs, `replace` rewrites its first occurrence and keeps the text before and after it. |
| Strings.ReplaceFirstPrefix | server.cjs:71 | When the pattern is a prefix, `replace` removes that prefix. |
| Strings.ToLowerIdempotent | src/pages/Admin/components/AdminOrders.tsx:61-62 | Lower-casing is idempotent and leaves no ASCII capital. |
| Strings.ParseNatToString | server.cjs:50 | The decimal text of `Date.now()` reads back as the same number. |

## Left out

- Rendering, routing and the React lifecycle are left out. Effects and callbacks are modelled as functions from a state and an outcome to a next state. Two things are not modelled: the stale closures of `useCallback`, and a request still in flight while the identity changes.
- `fetch`, the network and json-server's generic REST routes are parameters: each remote call's outcome is a `Reply`, and the store effect is `CartRemote.Apply`. `clearByUser` fans out one DELETE per record. It is modelled as one atomic `DeleteAllFor`.
- `localStorage` is left out: the token and user it stores, and the rehydration on mount, which the model treats as an `INIT` with whatever user it yields.
- The clock is a parameter. `Date.now()` in `timeAgo`, in the register id and in the cart record id is passed in, and so is the date part of `toISOString()`. Date parsing is left out, so `timeAgo` takes the difference in milliseconds.
- Floating point is left out. Prices and revenues are integers. `toFixed`, `totalRevenue`, `revenueGrowth`, the monthly buckets and `newUsersThisMonth` of `/adminStats` are not part of this model; only its integer counts are.
- `recentUsers` sorts by a parsed date, and is left out with date parsing.
- JSON bodies and records are taken to have the declared field types. NaN, strings where numbers are declared, and a query token given as an array are not modelled.
- The declarations of `SellerProfile` and `Report` (src/types/index.ts) are not part of this model. Only `isVerified` and `status` are modelled.
- `Object.entries` lists keys that are array indices (such as a category named `"3"`) first. The count tables keep plain insertion order.
- Strings.ToLower: lower-cases ASCII letters only, not the full Unicode case mapping `toLowerCase` applies.
- The page's users come from json-server's `/users`, which returns stored records as they are. `Overview.RoleCounts` therefore counts `Server.Account` values.
- Uri.Encode: strings are sequences of Unicode scalar values, not UTF-16 code units, so the `URIError` that `encodeURIComponent` throws on a lone surrogate is not modelled.
- Server.Received: a 2xx answer whose body carries no user is taken as a "Network error" rejection. In the client it would resolve with whatever JSON arrived, or reject with a JSON parse error. None of the modelled routes answers that way.
- The cart's `isLoading` flag (src/context/CartContext.tsx:64, 77, 84) is left out. It only drives the display while a load is in flight, and nothing in the cart's logic reads it.
- The order pages' status-update and loading handlers are left out. They only forward to the page's callback.

Where the code and its documentation differ, the model follows the code:

- Switching directly from one signed-in user to another does not clear the cart first.
- A failed load keeps the previous items and index.
- `removeFromCart` and `clearCart` drop index entries whatever the request's outcome.
- A search for `'All'` is dropped by `buildQuery` like the category `'All'`.
- `PATCH /profile/:id` stores any field of the body, the role included.
- The `Bearer ` removal replaces its first occurrence anywhere in the header.

## Findings

| source | as written | input that shows it | evidently intended | confidence | as-written member | corrected member |
|---|---|---|---|---|---|---|
| server.cjs:86-90 | After `assign(updates)`, the handler looks the account up again by the path id. A body that changes `id` has already moved the account, so the lookup finds nothing. Destructuring `undefined` then throws, and the server answers 500. The change is nevertheless stored, and the client reports "Network error". | `PATCH /profile/u1` with body `{ "id": "u2" }` on a store holding only user `u1` | The answer is the account just updated, found by its position rather than by the old id | not executed | Server.PatchProfileAsWritten, Server.PatchMovingIdExample | Server.PatchProfile |
