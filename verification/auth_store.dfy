/** The session store of registry/modules/auth/store/useAuthStore.ts: the
    token and the user, with the token mirrored into `localStorage` under
    JWT_STORE_KEY. `localStorage` is the `storage` field. */
module AuthStore {
  import opened Wrappers
  import opened Routing

  /** The User record of the auth module. */
  datatype User = User(id: string, email: string, name: Option<string>, avatar: Option<string>)

  /** `${config.app.id}:token` with the default application id. */
  const JwtStoreKey := "my-app:token"

  class AuthStore {
    var user: Option<User>
    var token: Option<string>
    var storage: map<string, string>

    /** The stored entry is the token, and a non-empty token is stored. */
    ghost predicate Valid()
      reads this
    {
      (JwtStoreKey in storage ==> token == Some(storage[JwtStoreKey])) &&
      (Truthy(token) ==> JwtStoreKey in storage)
    }

    /** The store starts without a user and with whatever token storage
        holds. */
    constructor(initialStorage: map<string, string>)
      ensures storage == initialStorage && user.None?
      ensures token == (if JwtStoreKey in initialStorage then Some(initialStorage[JwtStoreKey]) else None)
      ensures Valid()
    {
      user := None;
      token := if JwtStoreKey in initialStorage then Some(initialStorage[JwtStoreKey]) else None;
      storage := initialStorage;
    }

    /** `!!token && !!user`. */
    predicate IsAuthenticated()
      reads this
    {
      Truthy(token) && user.Some?
    }

    /** The token becomes t; a non-empty t is stored, anything else removes
        the entry. Every other storage entry is left alone. */
    method SetToken(t: Option<string>)
      modifies this
      ensures token == t && user == old(user)
      ensures storage == if Truthy(t) then old(storage)[JwtStoreKey := t.value] else old(storage) - {JwtStoreKey}
      ensures Valid()
    {
      token := t;
      if Truthy(t) {
        storage := storage[JwtStoreKey := t.value];
      } else {
        storage := storage - {JwtStoreKey};
      }
    }

    method SetUser(u: Option<User>)
      modifies this
      ensures user == u && token == old(token) && storage == old(storage)
      ensures old(Valid()) ==> Valid()
    {
      user := u;
    }

    /** Afterwards no token, no user, no stored entry, and the session is
        not authenticated. */
    method Logout()
      modifies this
      ensures token.None? && user.None? && storage == old(storage) - {JwtStoreKey}
      ensures JwtStoreKey !in storage && !IsAuthenticated() && Valid()
    {
      SetToken(None);
      SetUser(None);
    }
  }
}
