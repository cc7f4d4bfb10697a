/**
 * The session state machine of the storefront client: the auth reducer, its initial
 * state, and what `login`, `register`, `logout` and `updateProfile` dispatch and return
 * given the server's answer.
 */
module Auth {
  import opened Wrappers
  import opened Types

  datatype AuthState = AuthState(user: Option<User>, isAuthenticated: bool, isLoading: bool)

  /**
   * A `Partial<User>`: every field may be absent. For the fields that are optional in a
   * user, a present key may still carry no value, so those are optional twice.
   */
  datatype UserPatch = UserPatch(
    id: Option<string>,
    name: Option<string>,
    email: Option<string>,
    avatar: Option<Option<string>>,
    role: Option<Role>,
    joinedAt: Option<string>,
    address: Option<Option<Address>>)

  datatype AuthAction =
    | Init(payload: Option<User>)
    | LoginStart
    | LoginSuccess(user: User)
    | LoginFailure
    | Logout
    | UpdateProfile(patch: UserPatch)

  /** The state before the stored session has been looked at: nobody, and still loading. */
  const Initial := AuthState(None, false, true)

  /** The patch with no keys. */
  const NoChanges := UserPatch(None, None, None, None, None, None, None)

  /** The patch that carries every field of `u`. */
  function FullPatch(u: User): UserPatch
  {
    UserPatch(Some(u.id), Some(u.name), Some(u.email), Some(u.avatar), Some(u.role), Some(u.joinedAt), Some(u.address))
  }

  /** The fields a patch sets take its value; every other field keeps the user's. */
  predicate Overrides(u: User, p: UserPatch, r: User)
  {
    && r.id == p.id.GetOr(u.id)
    && r.name == p.name.GetOr(u.name)
    && r.email == p.email.GetOr(u.email)
    && r.avatar == p.avatar.GetOr(u.avatar)
    && r.role == p.role.GetOr(u.role)
    && r.joinedAt == p.joinedAt.GetOr(u.joinedAt)
    && r.address == p.address.GetOr(u.address)
  }

  /** `{ ...user, ...patch }`. */
  function Merge(u: User, p: UserPatch): (r: User)
    ensures Overrides(u, p, r)
  {
    User(
      p.id.GetOr(u.id),
      p.name.GetOr(u.name),
      p.email.GetOr(u.email),
      p.avatar.GetOr(u.avatar),
      p.role.GetOr(u.role),
      p.joinedAt.GetOr(u.joinedAt),
      p.address.GetOr(u.address))
  }

  /** An empty patch changes nothing; a full patch replaces the user; patching twice is patching once. */
  lemma MergeLaws(u: User, v: User, p: UserPatch)
    ensures Merge(u, NoChanges) == u
    ensures Merge(u, FullPatch(v)) == v
    ensures Merge(Merge(u, p), p) == Merge(u, p)
  {
  }

  /** `authReducer`. */
  function Reduce(s: AuthState, a: AuthAction): (r: AuthState)
    ensures a.Init? ==> r.user == a.payload && (r.isAuthenticated <==> a.payload.Some?) && !r.isLoading
    ensures a.LoginStart? ==> r == s.(isLoading := true)
    ensures a.LoginSuccess? ==> r.user == Some(a.user) && r.isAuthenticated && !r.isLoading
    ensures a.LoginFailure? ==> r == s.(isLoading := false)
    ensures a.Logout? ==> r.user.None? && !r.isAuthenticated && !r.isLoading
    ensures a.UpdateProfile? ==>
              r.isAuthenticated == s.isAuthenticated && r.isLoading == s.isLoading &&
              (s.user.None? <==> r.user.None?) &&
              (s.user.Some? ==> Overrides(s.user.value, a.patch, r.user.value))
  {
    match a
    case Init(payload) => AuthState(payload, payload.Some?, false)
    case LoginStart => s.(isLoading := true)
    case LoginSuccess(u) => AuthState(Some(u), true, false)
    case LoginFailure => s.(isLoading := false)
    case Logout => AuthState(None, false, false)
    case UpdateProfile(p) =>
      s.(user := match s.user
                 case Some(u) => Some(Merge(u, p))
                 case None => None)
  }

  /** The flag agrees with the presence of a user. */
  predicate Consistent(s: AuthState)
  {
    s.isAuthenticated <==> s.user.Some?
  }

  /** Dispatching a list of actions in order. */
  function Run(s: AuthState, actions: seq<AuthAction>): AuthState
    decreases |actions|
  {
    if |actions| == 0 then s else Run(Reduce(s, actions[0]), actions[1..])
  }

  /** Dispatching two actions is reducing by the first, then by the second. */
  lemma RunPair(s: AuthState, a: AuthAction, b: AuthAction)
    ensures Run(s, [a, b]) == Reduce(Reduce(s, a), b)
  {
    assert [a, b][1..] == [b];
    assert Run(Reduce(s, a), [b]) == Run(Reduce(Reduce(s, a), b), []);
  }

  lemma InitialIsConsistent()
    ensures Consistent(Initial)
    ensures Initial.user.None? && !Initial.isAuthenticated && Initial.isLoading
  {
  }

  /** Every action keeps the flag and the user in agreement. */
  lemma ReducePreservesConsistent(s: AuthState, a: AuthAction)
    requires Consistent(s)
    ensures Consistent(Reduce(s, a))
  {
  }

  /** `INIT`, `LOGIN_SUCCESS` and `LOGOUT` set both fields together, so they restore agreement from any state. */
  lemma ResetsAreConsistent(s: AuthState, a: AuthAction)
    requires a.Init? || a.LoginSuccess? || a.Logout?
    ensures Consistent(Reduce(s, a))
  {
  }

  /** Agreement holds after any sequence of actions dispatched from a consistent state. */
  lemma {:induction false} RunPreservesConsistent(s: AuthState, actions: seq<AuthAction>)
    requires Consistent(s)
    ensures Consistent(Run(s, actions))
    decreases |actions|
  {
    if |actions| > 0 {
      ReducePreservesConsistent(s, actions[0]);
      RunPreservesConsistent(Reduce(s, actions[0]), actions[1..]);
    }
  }

  /** Once loading is over, only `LOGIN_START` sets the loading flag again. */
  lemma {:induction false} RunPreservesNotLoading(s: AuthState, actions: seq<AuthAction>)
    requires !s.isLoading
    requires forall i :: 0 <= i < |actions| ==> !actions[i].LoginStart?
    ensures !Run(s, actions).isLoading
    decreases |actions|
  {
    if |actions| > 0 {
      assert !actions[0].LoginStart?;
      RunPreservesNotLoading(Reduce(s, actions[0]), actions[1..]);
    }
  }

  // ---------------------------------------------------------------------------
  // The provider's operations, with the server's answer as a parameter.

  /** A server call either resolves with a value or rejects with the error message. */
  datatype ApiReply<T> = Resolved(value: T) | Rejected(message: string)

  /** What an operation hands back to the page: `{ success, error? }`. */
  datatype Outcome = Outcome(success: bool, error: Option<string>)

  /** The result of an operation: the actions it dispatched, the state they lead to, and its outcome. */
  datatype Flow = Flow(dispatched: seq<AuthAction>, state: AuthState, outcome: Outcome)

  /**
   * `login` and `register` run the same flow: `LOGIN_START`, then `LOGIN_SUCCESS` with
   * the returned user or `LOGIN_FAILURE`, reporting the rejection's message.
   */
  function Authenticate(s: AuthState, reply: ApiReply<User>): (f: Flow)
    ensures f.state == Run(s, f.dispatched)
    ensures |f.dispatched| == 2 && f.dispatched[0] == LoginStart
    ensures f.outcome.success <==> reply.Resolved?
    ensures reply.Resolved? ==>
              f.state == AuthState(Some(reply.value), true, false) && f.outcome.error.None?
    ensures reply.Rejected? ==>
              f.state == s.(isLoading := false) && f.outcome.error == Some(reply.message)
  {
    match reply
    case Resolved(u) =>
      RunPair(s, LoginStart, LoginSuccess(u));
      Flow([LoginStart, LoginSuccess(u)], AuthState(Some(u), true, false), Outcome(true, None))
    case Rejected(m) =>
      RunPair(s, LoginStart, LoginFailure);
      Flow([LoginStart, LoginFailure], s.(isLoading := false), Outcome(false, Some(m)))
  }

  /** `logout`: one `LOGOUT`. */
  function SignOut(s: AuthState): (f: Flow)
    ensures f.state == Run(s, f.dispatched)
    ensures f.dispatched == [Logout]
    ensures f.state.user.None? && Consistent(f.state) && !f.state.isLoading
  {
    Flow([Logout], AuthState(None, false, false), Outcome(true, None))
  }

  /**
   * `updateProfile(updates)`: refused without a request when nobody is signed in;
   * otherwise the patch for the signed-in user's id is sent, and the user the server
   * returns is merged in with `UPDATE_PROFILE` on success.
   */
  function ProfileUpdate(s: AuthState, updates: UserPatch, reply: ApiReply<UserPatch>): (r: (Option<(string, UserPatch)>, Flow))
    ensures r.1.state == Run(s, r.1.dispatched)
    ensures s.user.None? ==>
              r.0.None? && r.1.dispatched == [] && r.1.state == s &&
              r.1.outcome == Outcome(false, Some("Not authenticated"))
    ensures s.user.Some? ==> r.0 == Some((s.user.value.id, updates))
    ensures s.user.Some? && reply.Resolved? ==>
              r.1.dispatched == [UpdateProfile(reply.value)] && r.1.outcome == Outcome(true, None) &&
              r.1.state.user == Some(Merge(s.user.value, reply.value))
    ensures s.user.Some? && reply.Rejected? ==>
              r.1.dispatched == [] && r.1.state == s && r.1.outcome == Outcome(false, Some(reply.message))
  {
    match s.user
    case None => (None, Flow([], s, Outcome(false, Some("Not authenticated"))))
    case Some(u) =>
      var request := Some((u.id, updates));
      match reply
      case Resolved(p) => (request, Flow([UpdateProfile(p)], Reduce(s, UpdateProfile(p)), Outcome(true, None)))
      case Rejected(m) => (request, Flow([], s, Outcome(false, Some(m))))
  }

  /** Every operation keeps a consistent state consistent. */
  lemma OperationsPreserveConsistent(s: AuthState, login: ApiReply<User>, updates: UserPatch, reply: ApiReply<UserPatch>)
    requires Consistent(s)
    ensures Consistent(Authenticate(s, login).state)
    ensures Consistent(SignOut(s).state)
    ensures Consistent(ProfileUpdate(s, updates, reply).1.state)
  {
  }

  /** A failed sign-in leaves the session as it was, apart from the loading flag. */
  lemma FailedSignInKeepsSession(s: AuthState, m: string)
    ensures Authenticate(s, Rejected(m)).state.user == s.user
    ensures Authenticate(s, Rejected(m)).state.isAuthenticated == s.isAuthenticated
  {
  }
}
