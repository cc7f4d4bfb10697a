/**
 * The mock server's own routes: `POST /login`, `POST /register`, `GET /profile`,
 * `PATCH /profile/:id` and the integer counts of `GET /adminStats`, as pure functions
 * over the stored collections. Every lookup is lowdb's `find`: the FIRST record that
 * matches. Request fields that may be missing or empty are `Option<string>`, and
 * JavaScript's falsiness of a string is `Blank`.
 */
module Server {
  import opened Wrappers
  import opened Seqs
  import opened Strings
  import opened Types
  import Uri
  import Auth

  /** A stored user: the public record and the password kept beside it. */
  datatype Account = Account(user: User, password: Option<string>)

  type Db = seq<Account>

  datatype Body =
    | Failure(error: string)
    | Session(user: User, token: string)
    | Profile(user: User)
      /** An exception escaped the handler: the framework answers with an HTML error page. */
    | Crashed

  datatype Response = Response(status: nat, body: Body)

  /** A missing or empty string is falsy. */
  predicate Blank(v: Option<string>)
  {
    v.None? || v.value == ""
  }

  const TokenPrefix := "mock-jwt-"

  /** The token handed out for a user. */
  function TokenFor(u: User): string
  {
    TokenPrefix + u.id
  }

  /** The two shapes of `find` query the routes use. */
  datatype Where = ByEmail(email: string) | ById(id: string)

  predicate Matches(a: Account, w: Where)
  {
    match w
    case ByEmail(e) => a.user.email == e
    case ById(i) => a.user.id == i
  }

  function FindFrom(db: Db, w: Where, from: nat): (r: Option<nat>)
    requires from <= |db|
    ensures r.Some? ==> from <= r.value < |db| && Matches(db[r.value], w)
    ensures r.Some? ==> forall j :: from <= j < r.value ==> !Matches(db[j], w)
    ensures r.None? ==> forall j :: from <= j < |db| ==> !Matches(db[j], w)
    decreases |db| - from
  {
    if from == |db| then None
    else if Matches(db[from], w) then Some(from)
    else FindFrom(db, w, from + 1)
  }

  /** `db.get('users').find(w).value()`: the position of the first matching account, if any. */
  function Find(db: Db, w: Where): (r: Option<nat>)
    ensures r.Some? ==> r.value < |db| && Matches(db[r.value], w)
    ensures r.Some? ==> forall j :: 0 <= j < r.value ==> !Matches(db[j], w)
    ensures r.None? <==> forall j :: 0 <= j < |db| ==> !Matches(db[j], w)
  {
    FindFrom(db, w, 0)
  }

  // ---------------------------------------------------------------------------
  // POST /login

  function Login(db: Db, email: Option<string>, password: Option<string>): (r: Response)
    ensures Blank(email) || Blank(password) <==> r == Response(400, Failure("Email and password are required."))
    ensures !Blank(email) && !Blank(password) && Find(db, ByEmail(email.value)).None? ==>
              r == Response(401, Failure("No account found with that email."))
    ensures !Blank(email) && !Blank(password) && Find(db, ByEmail(email.value)).Some? ==>
              var a := db[Find(db, ByEmail(email.value)).value];
              if a.password == password then r == Response(200, Session(a.user, TokenFor(a.user)))
              else r == Response(401, Failure("Incorrect password."))
  {
    if Blank(email) || Blank(password) then Response(400, Failure("Email and password are required."))
    else
      match Find(db, ByEmail(email.value))
      case None => Response(401, Failure("No account found with that email."))
      case Some(i) =>
        if db[i].password != password then Response(401, Failure("Incorrect password."))
        else Response(200, Session(db[i].user, TokenFor(db[i].user)))
  }

  /** A successful sign-in names a stored account with that email and password, and the first one with that email. */
  lemma LoginSucceedsOnlyForStoredCredentials(db: Db, email: Option<string>, password: Option<string>)
    ensures Login(db, email, password).status == 200 <==>
              !Blank(email) && !Blank(password) &&
              exists i :: 0 <= i < |db| && db[i].user.email == email.value && db[i].password == password &&
                          forall j :: 0 <= j < i ==> db[j].user.email != email.value
    ensures Login(db, email, password).status == 200 ==>
              Login(db, email, password).body.Session? &&
              Login(db, email, password).body.token == TokenFor(Login(db, email, password).body.user)
  {
    if !Blank(email) && !Blank(password) {
      var f := Find(db, ByEmail(email.value));
      if exists i :: 0 <= i < |db| && db[i].user.email == email.value && db[i].password == password &&
                     forall j :: 0 <= j < i ==> db[j].user.email != email.value {
        var i :| 0 <= i < |db| && db[i].user.email == email.value && db[i].password == password &&
                 forall j :: 0 <= j < i ==> db[j].user.email != email.value;
        assert Matches(db[i], ByEmail(email.value));
        assert f == Some(i);
      }
      if f.Some? && db[f.value].password == password {
        assert forall j :: 0 <= j < f.value ==> !Matches(db[j], ByEmail(email.value));
      }
    }
  }

  // ---------------------------------------------------------------------------
  // POST /register

  /** The generated avatar address for a name. */
  function AvatarFor(name: string): string
  {
    "https://ui-avatars.com/api/?name=" + Uri.Encode(name) + "&background=6366f1&color=fff"
  }

  /**
   * `POST /register`. The clock reading `now` (milliseconds) makes the id and `today`
   * is the date part of the current time; both are parameters.
   */
  function Register(db: Db, name: Option<string>, email: Option<string>, password: Option<string>,
                    confirmPassword: Option<string>, now: nat, today: string): (r: (Db, Response))
    ensures Blank(name) || Blank(email) || Blank(password) ==>
              r == (db, Response(400, Failure("All fields are required.")))
    ensures !Blank(name) && !Blank(email) && !Blank(password) && confirmPassword != password ==>
              r == (db, Response(400, Failure("Passwords do not match.")))
    ensures !Blank(name) && !Blank(email) && !Blank(password) && confirmPassword == password &&
            Find(db, ByEmail(email.value)).Some? ==>
              r == (db, Response(409, Failure("An account with this email already exists.")))
    ensures r.1.status == 201 <==>
              !Blank(name) && !Blank(email) && !Blank(password) && confirmPassword == password &&
              Find(db, ByEmail(email.value)).None?
    ensures r.1.status != 201 ==> r.0 == db
    ensures r.1.status == 201 ==>
              |r.0| == |db| + 1 && r.0[..|db|] == db &&
              r.0[|db|].user == User("u_" + NatToString(now), name.value, email.value,
                                     Some(AvatarFor(name.value)), Customer, today, None) &&
              r.0[|db|].password == password &&
              r.1.body == Session(r.0[|db|].user, TokenFor(r.0[|db|].user))
  {
    if Blank(name) || Blank(email) || Blank(password) then (db, Response(400, Failure("All fields are required.")))
    else if password != confirmPassword then (db, Response(400, Failure("Passwords do not match.")))
    else if Find(db, ByEmail(email.value)).Some? then
      (db, Response(409, Failure("An account with this email already exists.")))
    else
      var u := User("u_" + NatToString(now), name.value, email.value, Some(AvatarFor(name.value)), Customer, today, None);
      var db' := db + [Account(u, password)];
      assert db'[..|db|] == db;
      (db', Response(201, Session(u, TokenFor(u))))
  }

  /** Right after registering, the same email and password sign in as the new user. */
  lemma RegisterThenLogin(db: Db, name: Option<string>, email: Option<string>, password: Option<string>,
                          confirm: Option<string>, now: nat, today: string)
    requires Register(db, name, email, password, confirm, now, today).1.status == 201
    ensures var r := Register(db, name, email, password, confirm, now, today);
            Login(r.0, email, password) == Response(200, r.1.body)
  {
    var r := Register(db, name, email, password, confirm, now, today);
    var db' := r.0;
    var f := Find(db', ByEmail(email.value));
    assert Matches(db'[|db|], ByEmail(email.value));
    assert forall j :: 0 <= j < |db| ==> db'[j] == db[j];
    assert f == Some(|db|);
  }

  /** An email can be registered once: the second attempt is refused with 409 and stores nothing. */
  lemma RegisterTwice(db: Db, name: Option<string>, email: Option<string>, password: Option<string>,
                      confirm: Option<string>, now: nat, later: nat, today: string)
    requires Register(db, name, email, password, confirm, now, today).1.status == 201
    ensures var db' := Register(db, name, email, password, confirm, now, today).0;
            Register(db', name, email, password, confirm, later, today) ==
              (db', Response(409, Failure("An account with this email already exists.")))
  {
    var db' := Register(db, name, email, password, confirm, now, today).0;
    assert Matches(db'[|db|], ByEmail(email.value));
  }

  // ---------------------------------------------------------------------------
  // GET /profile

  /** The token of a request: the `token` query parameter, else the `Authorization` header without `Bearer `. */
  function RequestToken(queryToken: Option<string>, authorization: Option<string>): Option<string>
  {
    if !Blank(queryToken) then queryToken
    else match authorization
      case Some(h) => Some(ReplaceFirst(h, "Bearer ", ""))
      case None => None
  }

  function GetProfile(db: Db, queryToken: Option<string>, authorization: Option<string>): (r: Response)
    ensures var t := RequestToken(queryToken, authorization);
            Blank(t) || !IsPrefix(TokenPrefix, t.value) <==> r == Response(401, Failure("Unauthorized"))
    ensures var t := RequestToken(queryToken, authorization);
            !Blank(t) && IsPrefix(TokenPrefix, t.value) ==>
              match Find(db, ById(t.value[|TokenPrefix|..]))
              case None => r == Response(404, Failure("User not found"))
              case Some(i) => r == Response(200, Profile(db[i].user))
  {
    var token := RequestToken(queryToken, authorization);
    if Blank(token) || !IsPrefix(TokenPrefix, token.value) then Response(401, Failure("Unauthorized"))
    else
      var userId := ReplaceFirst(token.value, TokenPrefix, "");
      ReplaceFirstPrefix(token.value, TokenPrefix);
      match Find(db, ById(userId))
      case None => Response(404, Failure("User not found"))
      case Some(i) => Response(200, Profile(db[i].user))
  }

  /** No two accounts share an id. */
  predicate UniqueIds(db: Db)
  {
    forall i, j :: 0 <= i < j < |db| ==> db[i].user.id != db[j].user.id
  }

  /**
   * The token a sign-in hands out opens that user's profile, whether it is sent as the
   * query parameter or as a bearer header.
   */
  lemma TokenOpensProfile(db: Db, email: Option<string>, password: Option<string>)
    requires UniqueIds(db)
    requires Login(db, email, password).status == 200
    ensures var s := Login(db, email, password).body;
            GetProfile(db, Some(s.token), None) == Response(200, Profile(s.user)) &&
            GetProfile(db, None, Some("Bearer " + s.token)) == Response(200, Profile(s.user))
  {
    var i := Find(db, ByEmail(email.value)).value;
    var u := db[i].user;
    var t := TokenFor(u);
    assert IsPrefix(TokenPrefix, t);
    assert t[|TokenPrefix|..] == u.id;
    assert IsPrefix("Bearer ", "Bearer " + t);
    ReplaceFirstPrefix("Bearer " + t, "Bearer ");
    assert ("Bearer " + t)[|"Bearer "|..] == t;
    var f := Find(db, ById(u.id));
    assert Matches(db[i], ById(u.id));
    assert f == Some(i);
  }

  // ---------------------------------------------------------------------------
  // PATCH /profile/:id

  /** A request body: some user fields, and maybe a password. */
  datatype AccountPatch = AccountPatch(fields: Auth.UserPatch, password: Option<string>)

  /** `assign(updates)` after a falsy password has been deleted from the updates. */
  function Assign(a: Account, p: AccountPatch): (r: Account)
    ensures Auth.Overrides(a.user, p.fields, r.user)
    ensures Blank(p.password) ==> r.password == a.password
    ensures !Blank(p.password) ==> r.password == p.password
  {
    Account(Auth.Merge(a.user, p.fields), if Blank(p.password) then a.password else p.password)
  }

  /**
   * `PATCH /profile/:id` as written: the first account with the id is updated, then
   * looked up again BY THE SAME id for the answer. When the patch changed that id,
   * the lookup finds nothing (or another account), and destructuring `undefined` throws.
   */
  function PatchProfileAsWritten(db: Db, id: string, patch: AccountPatch): (r: (Db, Response))
    ensures Find(db, ById(id)).None? ==> r == (db, Response(404, Failure("User not found")))
    ensures Find(db, ById(id)).Some? ==>
              var i := Find(db, ById(id)).value;
              r.0 == db[i := Assign(db[i], patch)] &&
              match Find(r.0, ById(id))
              case None => r.1 == Response(500, Crashed)
              case Some(j) => r.1 == Response(200, Profile(r.0[j].user))
  {
    match Find(db, ById(id))
    case None => (db, Response(404, Failure("User not found")))
    case Some(i) =>
      var db' := db[i := Assign(db[i], patch)];
      match Find(db', ById(id))
      case None => (db', Response(500, Crashed))
      case Some(j) => (db', Response(200, Profile(db'[j].user)))
  }

  /** A patch that moves the only account with an id to another id is stored, and then the handler crashes. */
  lemma PatchMovingIdCrashes(db: Db, id: string, patch: AccountPatch)
    requires Find(db, ById(id)).Some?
    requires forall j :: 0 <= j < |db| && db[j].user.id == id ==> j == Find(db, ById(id)).value
    requires patch.fields.id.Some? && patch.fields.id.value != id
    ensures PatchProfileAsWritten(db, id, patch).1 == Response(500, Crashed)
    ensures PatchProfileAsWritten(db, id, patch).0[Find(db, ById(id)).value].user.id == patch.fields.id.value
  {
    var i := Find(db, ById(id)).value;
    var db' := db[i := Assign(db[i], patch)];
    assert forall j :: 0 <= j < |db'| ==> !Matches(db'[j], ById(id));
  }

  /** One concrete request: renaming user `u1` to `u2` answers 500 although the rename was stored. */
  lemma PatchMovingIdExample()
    ensures var u := User("u1", "Ann", "ann@example.com", None, Customer, "2024-01-01", None);
            var p := AccountPatch(Auth.UserPatch(Some("u2"), None, None, None, None, None, None), None);
            var r := PatchProfileAsWritten([Account(u, Some("secret"))], "u1", p);
            r.1.status == 500 && r.0[0].user.id == "u2"
  {
    var u := User("u1", "Ann", "ann@example.com", None, Customer, "2024-01-01", None);
    var p := AccountPatch(Auth.UserPatch(Some("u2"), None, None, None, None, None, None), None);
    assert Find([Account(u, Some("secret"))], ById("u1")) == Some(0);
    PatchMovingIdCrashes([Account(u, Some("secret"))], "u1", p);
  }

  /**
   * `PATCH /profile/:id` as intended: the first account with the id takes the patch and
   * the answer is that account as updated, without its password.
   */
  function PatchProfile(db: Db, id: string, patch: AccountPatch): (r: (Db, Response))
    ensures Find(db, ById(id)).None? <==> r == (db, Response(404, Failure("User not found")))
    ensures Find(db, ById(id)).Some? ==>
              var i := Find(db, ById(id)).value;
              |r.0| == |db| &&
              (forall j :: 0 <= j < |db| && j != i ==> r.0[j] == db[j]) &&
              Auth.Overrides(db[i].user, patch.fields, r.0[i].user) &&
              (Blank(patch.password) ==> r.0[i].password == db[i].password) &&
              r.1 == Response(200, Profile(r.0[i].user))
  {
    match Find(db, ById(id))
    case None => (db, Response(404, Failure("User not found")))
    case Some(i) =>
      var a := Assign(db[i], patch);
      (db[i := a], Response(200, Profile(a.user)))
  }

  /** When the patch keeps the id, the handler as written answers exactly as intended. */
  lemma PatchAsWrittenAgrees(db: Db, id: string, patch: AccountPatch)
    requires patch.fields.id.None? || patch.fields.id == Some(id)
    ensures PatchProfileAsWritten(db, id, patch) == PatchProfile(db, id, patch)
  {
    if Find(db, ById(id)).Some? {
      var i := Find(db, ById(id)).value;
      var db' := db[i := Assign(db[i], patch)];
      assert Matches(db'[i], ById(id));
      var f := Find(db', ById(id));
      assert f == Some(i);
    }
  }

  /** After a patch that keeps the id, the profile route returns what the patch answered. */
  lemma PatchThenProfile(db: Db, id: string, patch: AccountPatch)
    requires patch.fields.id.None? || patch.fields.id == Some(id)
    requires Find(db, ById(id)).Some?
    ensures var r := PatchProfile(db, id, patch);
            GetProfile(r.0, Some(TokenPrefix + id), None) == r.1
  {
    PatchAsWrittenAgrees(db, id, patch);
    var t := TokenPrefix + id;
    assert IsPrefix(TokenPrefix, t);
    assert t[|TokenPrefix|..] == id;
  }

  // ---------------------------------------------------------------------------
  // GET /adminStats: the integer counts

  datatype StatCounts = StatCounts(
    totalUsers: nat,
    totalSellers: nat,
    totalProducts: nat,
    totalOrders: nat,
    pendingReports: nat)

  predicate IsPending(r: Report)
  {
    r.status == "pending"
  }

  /** Each collection counts as empty when it is missing from the store. */
  function AdminCounts(users: Option<Db>, sellers: Option<seq<SellerProfile>>, products: Option<seq<Product>>,
                       orders: Option<seq<Order>>, reports: Option<seq<Report>>): (c: StatCounts)
    ensures c.totalUsers == |users.GetOr([])| && c.totalSellers == |sellers.GetOr([])|
    ensures c.totalProducts == |products.GetOr([])| && c.totalOrders == |orders.GetOr([])|
    ensures c.pendingReports == CountKey(reports.GetOr([]), (r: Report) => r.status, "pending")
    ensures c.pendingReports <= |reports.GetOr([])|
  {
    var rs := reports.GetOr([]);
    FilterCountsKey(rs, IsPending, (r: Report) => r.status, "pending");
    StatCounts(|users.GetOr([])|, |sellers.GetOr([])|, |products.GetOr([])|, |orders.GetOr([])|,
               |Filter(rs, IsPending)|)
  }

  // ---------------------------------------------------------------------------
  // What the client's `request` makes of an answer, and the sign-in flow end to end.

  /**
   * A 2xx answer resolves with its user. Any other answer rejects: with the body's `error`
   * when it has one, with `HTTP <status>` when it is JSON without one, and with
   * `'Network error'` when it is not JSON. A 2xx answer without a user never comes from
   * the routes modelled here, and its reply is taken as `'Network error'`.
   */
  function Received(r: Response): (reply: Auth.ApiReply<User>)
    ensures 200 <= r.status < 300 && (r.body.Session? || r.body.Profile?) ==>
              reply == Auth.Resolved(r.body.user)
    ensures !(200 <= r.status < 300) && r.body.Failure? ==> reply == Auth.Rejected(r.body.error)
    ensures !(200 <= r.status < 300) && (r.body.Session? || r.body.Profile?) ==>
              reply == Auth.Rejected("HTTP " + IntToString(r.status))
    ensures !(200 <= r.status < 300) && r.body.Crashed? ==> reply == Auth.Rejected("Network error")
    ensures reply.Resolved? <==> 200 <= r.status < 300 && (r.body.Session? || r.body.Profile?)
  {
    if 200 <= r.status < 300 then
      match r.body
      case Session(u, _) => Auth.Resolved(u)
      case Profile(u) => Auth.Resolved(u)
      case _ => Auth.Rejected("Network error")
    else
      match r.body
      case Failure(e) => Auth.Rejected(e)
      case Crashed => Auth.Rejected("Network error")
      case _ => Auth.Rejected("HTTP " + IntToString(r.status))
  }

  /**
   * Signing in against the server: the session becomes the stored user exactly when the
   * credentials are right, and otherwise the page shows the server's message.
   */
  lemma SignInAgainstServer(s: Auth.AuthState, db: Db, email: Option<string>, password: Option<string>)
    ensures var f := Auth.Authenticate(s, Received(Login(db, email, password)));
            f.outcome.success <==> Login(db, email, password).status == 200
    ensures var r := Login(db, email, password);
            var f := Auth.Authenticate(s, Received(r));
            r.status != 200 ==> f.outcome.error == Some(r.body.error) && f.state.user == s.user
    ensures var r := Login(db, email, password);
            var f := Auth.Authenticate(s, Received(r));
            r.status == 200 ==> f.state.user == Some(r.body.user) && f.state.isAuthenticated
  {
  }
}
