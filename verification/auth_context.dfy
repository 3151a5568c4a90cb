/** The session state of the application: a reducer over a four-field state
    with LOGIN and LOGOUT transitions, the browser key-value store those
    transitions write, and the restore step run once at start-up. JSON
    serialisation of the user object is a parameter (`stringify`, `parse`);
    the store is a map from keys to strings. */
module AuthContext {
  import opened Wrappers
  import opened JsValue

  /** The user object `{ id, username, role }`; fields missing from a parsed
      object read as `null`. */
  datatype User = User(id: Value, username: Value, role: Value)

  datatype AuthState = AuthState(isAuthenticated: bool, user: Option<User>, token: Option<string>, admin: bool)

  /** `{ isAuthenticated: false, user: null, token: null, admin: false }`. */
  const Initial := AuthState(false, None, None, false)

  /** The actions the reducer distinguishes; `Other` is any other type. */
  datatype Action = Login(user: Option<User>, token: string, admin: bool) | Logout | Other

  /** What `JSON.parse` gives for a stored string: a user (or `null`), or a
      thrown error. */
  datatype ParseResult = Malformed | Parsed(user: Option<User>)

  /** The store keys the session uses. */
  const UserKey := "user"
  const TokenKey := "jwtToken"
  const AdminKey := "admin"

  /** `authReducer(state, action)`: the state it returns. */
  function Reduce(state: AuthState, action: Action): (s: AuthState)
    ensures action.Login? ==> s.isAuthenticated && s.user == action.user
                              && s.token == Some(action.token) && s.admin == action.admin
    ensures action.Logout? ==> s == Initial
    ensures action.Other? ==> s == state
  {
    match action
    case Login(user, token, admin) => state.(isAuthenticated := true, user := user, token := Some(token), admin := admin)
    case Logout => state.(isAuthenticated := false, user := None, token := None, admin := false)
    case Other => state
  }

  /** The store writes of `authReducer`: LOGIN sets the serialised user and
      the token, LOGOUT removes both, anything else leaves the store alone. */
  function StoreEffect(storage: map<string, string>, action: Action, stringify: Option<User> -> string)
    : (r: map<string, string>)
    ensures action.Login? ==> r.Keys == storage.Keys + {UserKey, TokenKey}
                              && r[UserKey] == stringify(action.user) && r[TokenKey] == action.token
    ensures action.Logout? ==> r.Keys == storage.Keys - {UserKey, TokenKey}
    ensures forall k :: k in storage && k != UserKey && k != TokenKey ==> k in r && r[k] == storage[k]
    ensures action.Other? ==> r == storage
  {
    match action
    case Login(user, token, _) => storage[UserKey := stringify(user)][TokenKey := token]
    case Logout => storage - {UserKey, TokenKey}
    case Other => storage
  }

  /** Logging out always returns to the initial state, so a second logout
      changes nothing more, in the state or in the store. */
  lemma LogoutIdempotent(state: AuthState, storage: map<string, string>, stringify: Option<User> -> string)
    ensures Reduce(Reduce(state, Logout), Logout) == Reduce(state, Logout) == Initial
    ensures StoreEffect(StoreEffect(storage, Logout, stringify), Logout, stringify)
         == StoreEffect(storage, Logout, stringify)
  {
  }

  /** After LOGIN then LOGOUT the state is the initial one and neither the
      user nor the token is left in the store, whatever was there before. */
  lemma LoginThenLogout(state: AuthState, storage: map<string, string>, action: Action,
                        stringify: Option<User> -> string)
    requires action.Login?
    ensures Reduce(Reduce(state, action), Logout) == Initial
    ensures var after := StoreEffect(StoreEffect(storage, action, stringify), Logout, stringify);
      UserKey !in after && TokenKey !in after
      && forall k :: k in storage && k != UserKey && k != TokenKey ==> k in after && after[k] == storage[k]
  {
  }

  /** The actions applied one after another, to the store. */
  function StoreAfter(storage: map<string, string>, actions: seq<Action>, stringify: Option<User> -> string)
    : map<string, string>
    decreases |actions|
  {
    if actions == [] then storage
    else StoreAfter(StoreEffect(storage, actions[0], stringify), actions[1..], stringify)
  }

  /** No sequence of reducer actions writes or removes the 'admin' key. */
  lemma {:induction false} AdminKeyNeverWritten(storage: map<string, string>, actions: seq<Action>,
                                                stringify: Option<User> -> string)
    ensures AdminKey in StoreAfter(storage, actions, stringify) <==> AdminKey in storage
    ensures AdminKey in storage ==> StoreAfter(storage, actions, stringify)[AdminKey] == storage[AdminKey]
    decreases |actions|
  {
    if actions != [] {
      AdminKeyNeverWritten(StoreEffect(storage, actions[0], stringify), actions[1..], stringify);
    }
  }

  /** `localStorage.getItem(key)` used as a condition: present and not ''. */
  predicate Present(storage: map<string, string>, key: string)
    ensures Present(storage, key) <==> Truthy(if key in storage then Str(storage[key]) else Null)
  {
    key in storage && storage[key] != ""
  }

  /** The LOGIN the restore step dispatches, if any: only when both the user
      and the token are present and the user parses; the admin flag is the
      stored 'admin' string compared with 'true'. */
  function RestoreAction(storage: map<string, string>, parse: string -> ParseResult): (r: Option<Action>)
    ensures r.Some? <==> Present(storage, UserKey) && Present(storage, TokenKey) && parse(storage[UserKey]).Parsed?
    ensures r.Some? ==> r.value == Login(parse(storage[UserKey]).user, storage[TokenKey],
                                         AdminKey in storage && storage[AdminKey] == "true")
  {
    if Present(storage, UserKey) && Present(storage, TokenKey) then
      match parse(storage[UserKey])
      case Malformed => None
      case Parsed(user) => Some(Login(user, storage[TokenKey], AdminKey in storage && storage[AdminKey] == "true"))
    else None
  }

  /** A LOGIN with a non-empty token whose user serialises to a non-empty
      string that parses back is restored after a reload with the same user
      and token, but with the admin flag read from the 'admin' key, which no
      action writes: starting from a store without that key the restored
      flag is false even when the login carried `admin: true`. */
  lemma LoginSurvivesReload(storage: map<string, string>, actions: seq<Action>, login: Action,
                            parse: string -> ParseResult, stringify: Option<User> -> string)
    requires login.Login? && login.token != ""
    requires stringify(login.user) != "" && parse(stringify(login.user)) == Parsed(login.user)
    requires AdminKey !in storage
    ensures RestoreAction(StoreAfter(storage, actions + [login], stringify), parse)
         == Some(Login(login.user, login.token, false))
  {
    StoreAfterAppend(storage, actions, login, stringify);
    AdminKeyNeverWritten(storage, actions + [login], stringify);
  }

  lemma {:induction false} StoreAfterAppend(storage: map<string, string>, actions: seq<Action>, last: Action,
                                            stringify: Option<User> -> string)
    ensures StoreAfter(storage, actions + [last], stringify)
         == StoreEffect(StoreAfter(storage, actions, stringify), last, stringify)
    decreases |actions|
  {
    if actions == [] {
      assert actions + [last] == [last];
    } else {
      assert (actions + [last])[1..] == actions[1..] + [last];
      StoreAfterAppend(StoreEffect(storage, actions[0], stringify), actions[1..], last, stringify);
    }
  }

  /** The authentication provider: the reducer's state, the loading flag and
      the store it writes. */
  class Session {
    var state: AuthState
    var loading: bool
    var storage: map<string, string>

    /** Mounting starts in the initial state and loading. */
    constructor(storage0: map<string, string>)
      ensures state == Initial && loading && storage == storage0
    {
      state, loading, storage := Initial, true, storage0;
    }

    /** `dispatch(action)`: the reducer's new state and its store writes. */
    method Dispatch(action: Action, stringify: Option<User> -> string)
      modifies this
      ensures state == Reduce(old(state), action)
      ensures storage == StoreEffect(old(storage), action, stringify)
      ensures loading == old(loading)
    {
      storage := StoreEffect(storage, action, stringify);
      state := Reduce(state, action);
    }

    /** The start-up effect: dispatch the restored LOGIN if there is one (a
        parse failure dispatches nothing), then stop loading in every case. */
    method Restore(parse: string -> ParseResult, stringify: Option<User> -> string)
      modifies this
      ensures var a := RestoreAction(old(storage), parse);
        && state == (if a.Some? then Reduce(old(state), a.value) else old(state))
        && storage == (if a.Some? then StoreEffect(old(storage), a.value, stringify) else old(storage))
      ensures !loading
    {
      var a := RestoreAction(storage, parse);
      if a.Some? {
        Dispatch(a.value, stringify);
      }
      loading := false;
    }
  }
}
