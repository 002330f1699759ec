/** The HTTP error classification, retry rules and query keys of the five
    queryUtils.ts files (registry/features/tenantFeat/utils and
    registry/modules/{user,settings,logs,auth}/utils). A thrown value is
    modelled by the shape the predicates look at: null or undefined, a
    primitive without properties, or an object whose `response` may be
    absent and whose `status` may be undefined. */
module QueryUtils {
  import opened Wrappers

  /** The body createHttpError attaches to a response. */
  datatype ErrorData = ErrorData(message: string, errors: Option<map<string, seq<string>>>)

  /** `error.response`: a status when one is set, and a body. */
  datatype ErrorResponse = ErrorResponse(status: Option<int>, data: Option<ErrorData>)

  datatype ErrorValue =
    | Nullish
    | Primitive
    | ErrorObject(message: string, response: Option<ErrorResponse>)

  const Unauthorized := 401
  const Forbidden := 403
  const BadRequest := 400
  const InternalServerError := 500
  /** The `maxAttempts = 2` default of every retry factory. */
  const DefaultMaxAttempts := 2

  /** `error?.response?.status`: the status, when every link is there. */
  function StatusOf(error: ErrorValue): Option<int> {
    if error.ErrorObject? && error.response.Some? then error.response.value.status else None
  }

  predicate AuthStatus(status: Option<int>) {
    status == Some(Unauthorized) || status == Some(Forbidden)
  }

  predicate ClientStatus(status: Option<int>) {
    status.Some? && BadRequest <= status.value < InternalServerError
  }

  // ---------------------------------------------------------------------
  // tenantFeat, user and settings (logs has only isClientError): the
  // cast `error as { response?: ... }` reads `.response` directly, so a
  // null or undefined error throws a TypeError, modelled as None.

  function IsAuthError(error: ErrorValue): (r: Option<bool>)
    ensures r.None? <==> error.Nullish?
    ensures r == Some(true) <==> AuthStatus(StatusOf(error))
  {
    match error
    case Nullish => None
    case Primitive => Some(false)
    case ErrorObject(_, response) =>
      if response.None? then Some(false)
      else
        var status := response.value.status;
        Some(status == Some(Unauthorized) || status == Some(Forbidden))
  }

  /** `!!status && status >= 400 && status < 500`: status 0 and an unset
      status are not client errors. */
  function IsClientError(error: ErrorValue): (r: Option<bool>)
    ensures r.None? <==> error.Nullish?
    ensures r == Some(true) <==> ClientStatus(StatusOf(error))
  {
    match error
    case Nullish => None
    case Primitive => Some(false)
    case ErrorObject(_, response) =>
      if response.None? then Some(false)
      else
        var status := response.value.status;
        Some(status.Some? && status.value != 0 && status.value >= BadRequest && status.value < InternalServerError)
  }

  /** The query retry closure: never after an authentication error,
      otherwise while fewer than maxAttempts failures have happened. */
  function QueryRetry(maxAttempts: int, failureCount: int, error: ErrorValue): Option<bool> {
    match IsAuthError(error)
    case None => None
    case Some(auth) => Some(if auth then false else failureCount < maxAttempts)
  }

  /** The mutation retry closure: never after a client error. */
  function MutationRetry(maxAttempts: int, failureCount: int, error: ErrorValue): Option<bool> {
    match IsClientError(error)
    case None => None
    case Some(client) => Some(if client then false else failureCount < maxAttempts)
  }

  /** logs' query retry looks at the failure count only. */
  function LogsQueryRetry(maxAttempts: int, failureCount: int): bool {
    failureCount < maxAttempts
  }

  // ---------------------------------------------------------------------
  // auth: optional chaining, so every value is classified and nothing
  // throws.

  function AuthIsAuthError(error: ErrorValue): bool {
    var status := StatusOf(error);
    status == Some(Unauthorized) || status == Some(Forbidden)
  }

  /** `status >= 400 && status < 500`, where undefined compares false. */
  function AuthIsClientError(error: ErrorValue): bool {
    var status := StatusOf(error);
    status.Some? && status.value >= BadRequest && status.value < InternalServerError
  }

  function AuthQueryRetry(maxAttempts: int, failureCount: int, error: ErrorValue): bool {
    if AuthIsAuthError(error) then false else failureCount < maxAttempts
  }

  function AuthMutationRetry(maxAttempts: int, failureCount: int, error: ErrorValue): bool {
    if AuthIsClientError(error) then false else failureCount < maxAttempts
  }

  /** The two spellings of the predicates agree on every value the cast
      versions can read: they differ only in throwing on null or undefined. */
  lemma VariantsAgree(error: ErrorValue)
    ensures error.Nullish? ==> IsAuthError(error).None? && !AuthIsAuthError(error)
    ensures !error.Nullish? ==> IsAuthError(error) == Some(AuthIsAuthError(error))
    ensures !error.Nullish? ==> IsClientError(error) == Some(AuthIsClientError(error))
  {
  }

  /** 401 and 403 are client errors, so a mutation never retries after an
      authentication error either. */
  lemma AuthErrorsAreClientErrors(error: ErrorValue)
    ensures AuthIsAuthError(error) ==> AuthIsClientError(error)
    ensures IsAuthError(error) == Some(true) ==> IsClientError(error) == Some(true)
  {
  }

  /** No retry once maxAttempts failures have been counted, and a retry
      for every earlier failure unless the error stops it. */
  lemma RetryBounded(maxAttempts: int, failureCount: int, error: ErrorValue)
    ensures failureCount >= maxAttempts ==>
      QueryRetry(maxAttempts, failureCount, error) != Some(true) &&
      MutationRetry(maxAttempts, failureCount, error) != Some(true) &&
      !LogsQueryRetry(maxAttempts, failureCount) &&
      !AuthQueryRetry(maxAttempts, failureCount, error) && !AuthMutationRetry(maxAttempts, failureCount, error)
    ensures failureCount < maxAttempts ==>
      (QueryRetry(maxAttempts, failureCount, error) == Some(true) <==>
         IsAuthError(error) == Some(false)) &&
      (MutationRetry(maxAttempts, failureCount, error) == Some(true) <==>
         IsClientError(error) == Some(false)) &&
      (AuthQueryRetry(maxAttempts, failureCount, error) <==> !AuthIsAuthError(error)) &&
      (AuthMutationRetry(maxAttempts, failureCount, error) <==> !AuthIsClientError(error))
  {
  }

  /** With the default of two, a server error (status 500 or more) is
      retried after the first and second failure and not after the third. */
  lemma DefaultRetriesTwice(error: ErrorValue)
    requires StatusOf(error).Some? && StatusOf(error).value >= InternalServerError
    ensures QueryRetry(DefaultMaxAttempts, 0, error) == Some(true)
    ensures QueryRetry(DefaultMaxAttempts, 1, error) == Some(true)
    ensures QueryRetry(DefaultMaxAttempts, 2, error) == Some(false)
    ensures MutationRetry(DefaultMaxAttempts, 1, error) == Some(true)
    ensures MutationRetry(DefaultMaxAttempts, 2, error) == Some(false)
    ensures AuthQueryRetry(DefaultMaxAttempts, 1, error) && !AuthQueryRetry(DefaultMaxAttempts, 2, error)
  {
  }

  // ---------------------------------------------------------------------
  // Query keys

  /** One element of a query key: a word, or the filters object of logs. */
  datatype KeyPart = Word(w: string) | Filters(f: map<string, string>)

  function TenantAll(): seq<KeyPart> { [Word("tenant")] }
  function TenantList(): seq<KeyPart> { TenantAll() + [Word("list")] }
  function TenantDetail(id: string): seq<KeyPart> { TenantAll() + [Word("detail"), Word(id)] }
  function TenantCurrent(): seq<KeyPart> { TenantAll() + [Word("current")] }
  function TenantMembership(tenantId: string): seq<KeyPart> { TenantAll() + [Word("membership"), Word(tenantId)] }

  function UserAll(): seq<KeyPart> { [Word("user")] }
  function UserProfile(): seq<KeyPart> { UserAll() + [Word("profile")] }
  function UserMe(): seq<KeyPart> { UserAll() + [Word("me")] }

  function SettingsAll(): seq<KeyPart> { [Word("settings")] }
  function SettingsMe(): seq<KeyPart> { SettingsAll() + [Word("me")] }

  function LogsAll(): seq<KeyPart> { [Word("logs")] }
  /** `[...all, { ...(filters ?? {}) }]`: a shallow copy holds the same entries. */
  function LogsList(filters: Option<map<string, string>>): seq<KeyPart> {
    LogsAll() + [Filters(if filters.Some? then filters.value else map[])]
  }

  function AuthAll(): seq<KeyPart> { [Word("auth")] }
  function AuthUser(): seq<KeyPart> { AuthAll() + [Word("user")] }
  function AuthMe(): seq<KeyPart> { AuthAll() + [Word("me")] }

  /** Every tenant key extends `["tenant"]`; detail and membership keys end
      with their id and are determined by it, and keys from different
      builders never coincide (their lengths are 1, 2, 2, 3 and 3, and keys
      of equal length differ in their second part). */
  lemma TenantKeys(id: string, id': string)
    ensures TenantAll() <= TenantList() && TenantAll() <= TenantCurrent()
    ensures TenantAll() <= TenantDetail(id) && TenantDetail(id)[|TenantDetail(id)| - 1] == Word(id)
    ensures TenantAll() <= TenantMembership(id) && TenantMembership(id)[|TenantMembership(id)| - 1] == Word(id)
    ensures TenantDetail(id) == TenantDetail(id') <==> id == id'
    ensures TenantMembership(id) == TenantMembership(id') <==> id == id'
    ensures TenantDetail(id) != TenantMembership(id') && TenantList() != TenantCurrent()
    ensures |TenantAll()| == 1 && |TenantList()| == 2 && |TenantCurrent()| == 2
    ensures |TenantDetail(id)| == 3 && |TenantMembership(id)| == 3
    ensures TenantAll() != TenantList() && TenantAll() != TenantCurrent()
    ensures TenantAll() != TenantDetail(id) && TenantAll() != TenantMembership(id)
    ensures TenantList() != TenantDetail(id) && TenantList() != TenantMembership(id)
    ensures TenantCurrent() != TenantDetail(id) && TenantCurrent() != TenantMembership(id)
  {
    if TenantDetail(id) == TenantDetail(id') {
      assert TenantDetail(id)[2] == Word(id);
    }
    if TenantMembership(id) == TenantMembership(id') {
      assert TenantMembership(id)[2] == Word(id);
    }
    assert TenantDetail(id)[1] == Word("detail");
    assert TenantMembership(id')[1] == Word("membership");
    assert TenantList()[1] == Word("list");
    assert TenantCurrent()[1] == Word("current");
  }

  /** The user, settings, auth and logs keys extend their module's `all`
      key, and within each module the keys are distinct. */
  lemma ModuleKeys(filters: Option<map<string, string>>)
    ensures UserAll() <= UserProfile() && UserAll() <= UserMe() && UserProfile() != UserMe()
    ensures SettingsAll() <= SettingsMe() && |SettingsMe()| == 2
    ensures AuthAll() <= AuthUser() && AuthAll() <= AuthMe() && AuthUser() != AuthMe()
    ensures LogsAll() <= LogsList(filters)
    ensures filters.None? ==> LogsList(filters) == [Word("logs"), Filters(map[])]
  {
    assert UserProfile()[1] == Word("profile") && UserMe()[1] == Word("me");
    assert AuthUser()[1] == Word("user") && AuthMe()[1] == Word("me");
  }
}
