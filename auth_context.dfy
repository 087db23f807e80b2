/** The session state of frontend/src/context/AuthContext.jsx: a token held
    in component state and mirrored under the `token` key of `localStorage`,
    a user record, and the derived `isLoggedIn`. */
module AuthContext {
  import opened Wrappers
  import opened Browser

  const TOKEN_KEY := "token"
  const LOGIN_ROUTE := "/login"

  /** What the provider holds: the state token, the user, the current route,
      and the token stored in `localStorage`. */
  datatype Session = Session(token: Option<string>, user: Option<string>, route: string, stored: Option<string>)

  /** State and storage hold the same token. */
  predicate Synced(s: Session)
  {
    s.token == s.stored
  }

  /** The session after `login(t)`. */
  function LoggedIn(s: Session, t: string): Session
  {
    s.(token := Some(t), stored := Some(t))
  }

  /** The session after `logout()`. */
  function LoggedOut(s: Session): Session
  {
    s.(token := None, user := None, route := LOGIN_ROUTE, stored := None)
  }

  /** After `login(t)` storage and state agree, and the session is logged in
      exactly when `t` is not the empty string. */
  lemma LoginSyncs(s: Session, t: string)
    ensures Synced(LoggedIn(s, t))
    ensures Truthy(LoggedIn(s, t).token) <==> t != ""
  {
  }

  /** After `logout()` nothing is stored, nobody is logged in, the view is
      the login page, and logging out again changes nothing. */
  lemma LogoutIsFinal(s: Session)
    ensures Synced(LoggedOut(s)) && !Truthy(LoggedOut(s).token)
    ensures LoggedOut(s).route == LOGIN_ROUTE
    ensures LoggedOut(LoggedOut(s)) == LoggedOut(s)
  {
  }

  class AuthProvider {
    const storage: LocalStorage
    var token: Option<string>
    var user: Option<string>
    var route: string

    ghost function State(): Session
      reads this, storage
    {
      Session(token, user, route, storage.Lookup(TOKEN_KEY))
    }

    /** Mounting the provider: the token is read back from storage, no user. */
    constructor(storage: LocalStorage, route: string)
      ensures this.storage == storage && this.route == route
      ensures token == storage.Lookup(TOKEN_KEY) && user == None
      ensures Synced(State())
    {
      this.storage := storage;
      this.route := route;
      var stored := storage.GetItem(TOKEN_KEY);
      token := stored;
      user := None;
    }

    /** `isLoggedIn = !!token`: `null` and the empty string are falsy. */
    function IsLoggedIn(): (r: bool)
      reads this
      ensures r <==> token.Some? && |token.value| > 0
    {
      Truthy(token)
    }

    /** `login(jwtToken)`: store the token, then set it as state. */
    method Login(jwtToken: string)
      modifies this, storage
      ensures State() == LoggedIn(old(State()), jwtToken)
      ensures storage.items == old(storage.items)[TOKEN_KEY := jwtToken]
      ensures IsLoggedIn() <==> jwtToken != ""
    {
      storage.SetItem(TOKEN_KEY, jwtToken);
      token := Some(jwtToken);
    }

    /** `logout()`: drop the stored token, clear token and user, go to the
        login page. */
    method Logout()
      modifies this, storage
      ensures State() == LoggedOut(old(State()))
      ensures storage.items == old(storage.items) - {TOKEN_KEY}
      ensures !IsLoggedIn()
    {
      storage.RemoveItem(TOKEN_KEY);
      token := None;
      user := None;
      route := LOGIN_ROUTE;
    }

    /** The exposed `setToken`: the state token changes, storage does not. */
    method SetToken(t: Option<string>)
      modifies this
      ensures State() == old(State()).(token := t)
    {
      token := t;
    }
  }
}
