/** The route guard (src/components/ProtectedRoute.tsx): a tri-state
    `isAuthorized` (null / true / false) decided once on mount from the access
    token in storage, its expiry and, for an expired token, a refresh call; the
    render follows the state. */
module RouteGuard {
  import opened Types
  import opened LocalStorage

  /** `null` while checking, then `true` or `false`. */
  datatype AuthState = Checking | Resolved(authorized: bool)

  /** What the guard renders. */
  datatype View = Loading | Children | RedirectToLogin

  /** What `jwtDecode` makes of the stored token: it throws, or it yields a
      payload whose `exp` claim may be missing. */
  datatype Decoded = Undecodable | Payload(exp: Option<int>)

  /** The outcome of `POST /api/token/refresh/`: the call threw, or it came
      back with a status and the `access` field of its body. */
  datatype RefreshResult = Threw | Status(code: int, access: string)

  /** The body of the refresh call: the stored refresh token, `null` when
      there is none. */
  datatype RefreshRequest = RefreshRequest(refresh: Option<string>)

  /** `tokenExpiration < Date.now() / 1000`, with the clock read in whole
      milliseconds: `exp < nowMs / 1000` is `exp * 1000 < nowMs`. A missing
      `exp` is `undefined`, and `undefined < n` is false. */
  function Expired(exp: Option<int>, nowMs: int): (r: bool)
    ensures r <==> exp.Some? && (exp.value as real) < (nowMs as real) / 1000.0
  {
    exp.Some? && exp.value * 1000 < nowMs
  }

  /** A refresh call that counts as a success: status 200. */
  function RefreshSucceeded(refresh: RefreshResult): (r: bool)
    ensures r ==> refresh.Status?
    ensures r <==> refresh.Status? && refresh == Status(200, refresh.access)
  {
    refresh.Status? && refresh.code == 200
  }

  /** The result of the mount-time check: the decision, the store after it,
      and the refresh call made, if any. */
  datatype AuthOutcome = AuthOutcome(authorized: bool, entries: map<string, string>, request: Option<RefreshRequest>)

  /** `auth()` with its `catch`, as a function of the store, the decoded
      token, the clock and the refresh call's result. */
  function Authenticate(entries: map<string, string>, decoded: Decoded, nowMs: int, refresh: RefreshResult): (r: AuthOutcome)
    // no token: unauthorized, no refresh, nothing written
    ensures !HasAccessToken(entries) ==> !r.authorized && r.request.None? && r.entries == entries
    // a refresh is attempted exactly for a decodable token that has expired
    ensures r.request.Some? <==> HasAccessToken(entries) && decoded.Payload? && Expired(decoded.exp, nowMs)
    // the refresh carries the stored refresh token and decides the result
    ensures r.request.Some? ==> r.request.value.refresh == GetItem(entries, RefreshKey)
    ensures r.request.Some? ==> (r.authorized <==> RefreshSucceeded(refresh))
    // without a refresh: authorized exactly for a decodable, unexpired token
    ensures r.request.None? ==> (r.authorized <==> HasAccessToken(entries) && decoded.Payload?)
    // only a successful refresh writes the store, and only the access token
    ensures r.entries == if r.request.Some? && r.authorized then entries[AccessKey := refresh.access] else entries
  {
    if !HasAccessToken(entries) then AuthOutcome(false, entries, None)
    else match decoded
      case Undecodable => AuthOutcome(false, entries, None)
      case Payload(exp) =>
        if Expired(exp, nowMs) then
          var request := Some(RefreshRequest(GetItem(entries, RefreshKey)));
          if RefreshSucceeded(refresh) then AuthOutcome(true, entries[AccessKey := refresh.access], request)
          else AuthOutcome(false, entries, request)
        else AuthOutcome(true, entries, None)
  }

  /** A token whose `exp` equals the current time exactly is still valid: the
      comparison is strict. */
  lemma ExpiryBoundaryIsValid(entries: map<string, string>, exp: int, refresh: RefreshResult)
    requires HasAccessToken(entries)
    ensures Authenticate(entries, Payload(Some(exp)), exp * 1000, refresh) == AuthOutcome(true, entries, None)
  {
  }

  /** The render decision: the placeholder while checking, then the protected
      content exactly when authorized, and the redirect to `/login` otherwise. */
  function Render(s: AuthState): (v: View)
    ensures v == Loading <==> s == Checking
    ensures v == Children <==> s == Resolved(true)
    ensures v == RedirectToLogin <==> s == Resolved(false)
  {
    match s
    case Checking => Loading
    case Resolved(authorized) => if authorized then Children else RedirectToLogin
  }

  class ProtectedRoute {
    var isAuthorized: AuthState
    const storage: TokenStore

    /** `useState<boolean | null>(null)` */
    constructor (storage: TokenStore)
      ensures this.storage == storage
      ensures isAuthorized == Checking
    {
      this.storage := storage;
      isAuthorized := Checking;
    }

    /** `refreshToken()`: post the stored refresh token; a status-200 reply
        stores its access token and authorizes, anything else (another status,
        or a throw) denies and writes nothing. */
    method RefreshToken(refresh: RefreshResult) returns (request: RefreshRequest)
      modifies this, storage
      ensures request == RefreshRequest(GetItem(old(storage.entries), RefreshKey))
      ensures RefreshSucceeded(refresh) ==> storage.entries == old(storage.entries)[AccessKey := refresh.access]
      ensures !RefreshSucceeded(refresh) ==> storage.entries == old(storage.entries)
      ensures isAuthorized == Resolved(RefreshSucceeded(refresh))
    {
      request := RefreshRequest(GetItem(storage.entries, RefreshKey));
      match refresh
      case Threw =>
        isAuthorized := Resolved(false);
      case Status(code, access) =>
        if code == 200 {
          storage.SetItem(AccessKey, access);
          isAuthorized := Resolved(true);
        } else {
          isAuthorized := Resolved(false);
        }
    }

    /** The mount effect `auth().catch(() => setIsAuthorized(false))`. It
        runs once, while the state is still `null`, and leaves it resolved;
        nothing sets it back to `null`. */
    method Auth(decoded: Decoded, nowMs: int, refresh: RefreshResult) returns (request: Option<RefreshRequest>)
      requires isAuthorized == Checking
      modifies this, storage
      ensures isAuthorized == Resolved(Authenticate(old(storage.entries), decoded, nowMs, refresh).authorized)
      ensures storage.entries == Authenticate(old(storage.entries), decoded, nowMs, refresh).entries
      ensures request == Authenticate(old(storage.entries), decoded, nowMs, refresh).request
    {
      var token := GetItem(storage.entries, AccessKey);
      if token.None? || token.value == "" {
        isAuthorized := Resolved(false);
        request := None;
        return;
      }
      match decoded
      case Undecodable =>
        // jwtDecode throws; the rejection reaches the effect's catch
        isAuthorized := Resolved(false);
        request := None;
      case Payload(exp) =>
        if Expired(exp, nowMs) {
          var sent := RefreshToken(refresh);
          request := Some(sent);
        } else {
          isAuthorized := Resolved(true);
          request := None;
        }
    }

    /** What the guard renders in its current state. */
    function CurrentView(): (v: View)
      reads this
      ensures v == Children <==> isAuthorized == Resolved(true)
      ensures v == Loading <==> isAuthorized == Checking
    {
      Render(isAuthorized)
    }
  }
}
