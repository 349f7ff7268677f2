/** The dashboard's authentication slice of the client store and its reducer. */
module AuthState {
  import opened Wrappers

  datatype User = User(name: string, email: string, role: string, avatar: string, bio: Option<string>)

  datatype Auth = Auth(token: Option<string>, user: Option<User>, isAuthenticated: bool)

  /**
   * A login payload. A key may be absent (outer `None`) or present with a value or `null`
   * (inner `Option`); a present `isAuthenticated` key is carried too.
   */
  datatype Payload = Payload(token: Option<Option<string>>, user: Option<Option<User>>, isAuthenticated: Option<bool>)

  datatype Action = Action(kind: string, payload: Payload)

  const LoginSuccess := "LOGIN_SUCCESS"

  /** The state before any login: no token, no user, not authenticated. */
  function Initial(): Auth
  {
    Auth(None, None, false)
  }

  /** A present payload key replaces the field; an absent one keeps it. */
  function Override<T>(field: T, key: Option<T>): T
  {
    match key
    case Some(v) => v
    case None => field
  }

  /** `authReducer`; an undefined incoming state is the initial one. */
  function Reduce(state: Option<Auth>, action: Action): (r: Auth)
    ensures action.kind == LoginSuccess ==> r.isAuthenticated
    ensures action.kind == LoginSuccess ==>
      var s := state.GetOr(Initial());
      && (action.payload.token.Some? ==> r.token == action.payload.token.value)
      && (action.payload.token.None? ==> r.token == s.token)
      && (action.payload.user.Some? ==> r.user == action.payload.user.value)
      && (action.payload.user.None? ==> r.user == s.user)
    ensures action.kind != LoginSuccess ==> r == state.GetOr(Initial())
  {
    var s := state.GetOr(Initial());
    if action.kind == LoginSuccess then
      Auth(Override(s.token, action.payload.token), Override(s.user, action.payload.user), true)
    else s
  }

  /** The store's state after dispatching `actions` in order, starting from `state`. */
  function ReduceAll(state: Option<Auth>, actions: seq<Action>): Auth
    decreases |actions|
  {
    if actions == [] then state.GetOr(Initial())
    else ReduceAll(Some(Reduce(state, actions[0])), actions[1..])
  }

  /**
   * A fresh store starts signed out and is authenticated exactly when some dispatched
   * action was a LOGIN_SUCCESS: no other action signs in, and nothing signs out.
   */
  lemma {:induction false} AuthenticatedIffLoggedIn(actions: seq<Action>)
    ensures ReduceAll(None, actions).isAuthenticated <==>
      exists i :: 0 <= i < |actions| && actions[i].kind == LoginSuccess
  {
    AuthenticatedAfter(None, actions);
  }

  /** The general form: the flag is the starting flag or a LOGIN_SUCCESS among the actions. */
  lemma {:induction false} AuthenticatedAfter(state: Option<Auth>, actions: seq<Action>)
    ensures ReduceAll(state, actions).isAuthenticated <==>
      state.GetOr(Initial()).isAuthenticated || exists i :: 0 <= i < |actions| && actions[i].kind == LoginSuccess
    decreases |actions|
  {
    if actions != [] {
      var next := Some(Reduce(state, actions[0]));
      AuthenticatedAfter(next, actions[1..]);
      if exists i :: 0 <= i < |actions| && actions[i].kind == LoginSuccess {
        var i :| 0 <= i < |actions| && actions[i].kind == LoginSuccess;
        if i > 0 {
          assert actions[1..][i - 1].kind == LoginSuccess;
        }
      }
      if exists j :: 0 <= j < |actions[1..]| && actions[1..][j].kind == LoginSuccess {
        var j :| 0 <= j < |actions[1..]| && actions[1..][j].kind == LoginSuccess;
        assert actions[j + 1].kind == LoginSuccess;
      }
    }
  }

  /** Applying the same login twice gives the state one application gives. */
  lemma LoginIdempotent(state: Option<Auth>, action: Action)
    requires action.kind == LoginSuccess
    ensures Reduce(Some(Reduce(state, action)), action) == Reduce(state, action)
  {
  }

  /** Even a payload that says `isAuthenticated: false` leaves the user authenticated. */
  lemma PayloadCannotDeauthenticate(state: Option<Auth>, token: Option<Option<string>>, user: Option<Option<User>>)
    ensures Reduce(state, Action(LoginSuccess, Payload(token, user, Some(false)))).isAuthenticated
  {
  }
}
