/** The browser's `localStorage`, as far as the session store and the route
    guard use it: a string-to-string store holding `access_token` and
    `refresh_token` next to whatever else the page keeps there. */
module LocalStorage {
  import opened Types

  const AccessKey: string := "access_token"
  const RefreshKey: string := "refresh_token"

  /** `localStorage.getItem(k)`, with `null` read as None. */
  function GetItem(entries: map<string, string>, k: string): (r: Option<string>)
    ensures r.Some? <==> k in entries
    ensures r.Some? ==> r.value == entries[k]
  {
    if k in entries then Some(entries[k]) else None
  }

  /** `!!localStorage.getItem("access_token")`: a token is present and is
      not the empty string (both `null` and `""` are falsy). */
  function HasAccessToken(entries: map<string, string>): (r: bool)
    ensures r <==> GetItem(entries, AccessKey).Some? && GetItem(entries, AccessKey).value != ""
  {
    AccessKey in entries && entries[AccessKey] != ""
  }

  /** The store after `login(access, refresh)` wrote both keys. */
  function AfterLogin(entries: map<string, string>, access: string, refresh: string): (r: map<string, string>)
    ensures r.Keys == entries.Keys + {AccessKey, RefreshKey}
    ensures r[AccessKey] == access && r[RefreshKey] == refresh
    ensures forall k :: k in entries && k != AccessKey && k != RefreshKey ==> r[k] == entries[k]
  {
    entries[AccessKey := access][RefreshKey := refresh]
  }

  /** The store after `logout()` removed both keys. */
  function AfterLogout(entries: map<string, string>): (r: map<string, string>)
    ensures r.Keys == entries.Keys - {AccessKey, RefreshKey}
    ensures forall k :: k in r ==> r[k] == entries[k]
  {
    entries - {AccessKey, RefreshKey}
  }

  /** Logging out twice leaves the store as logging out once. */
  lemma LogoutIdempotent(entries: map<string, string>)
    ensures AfterLogout(AfterLogout(entries)) == AfterLogout(entries)
  {
  }

  /** A token check right after login sees a token exactly when the access
      token written was non-empty; after logout it never sees one. */
  lemma CheckAfterLoginAndLogout(entries: map<string, string>, access: string, refresh: string)
    ensures HasAccessToken(AfterLogin(entries, access, refresh)) <==> access != ""
    ensures !HasAccessToken(AfterLogout(entries))
  {
  }

  /** Logging out after logging in leaves the store as logging out at once:
      no trace of the session is left behind. */
  lemma LogoutUndoesLogin(entries: map<string, string>, access: string, refresh: string)
    ensures AfterLogout(AfterLogin(entries, access, refresh)) == AfterLogout(entries)
  {
  }

  /** The store itself, one object shared by every component of the page. */
  class TokenStore {
    var entries: map<string, string>

    constructor (initial: map<string, string>)
      ensures entries == initial
    {
      entries := initial;
    }

    /** `localStorage.setItem(k, v)` */
    method SetItem(k: string, v: string)
      modifies this
      ensures entries == old(entries)[k := v]
    {
      entries := entries[k := v];
    }

    /** `localStorage.removeItem(k)` */
    method RemoveItem(k: string)
      modifies this
      ensures entries == old(entries) - {k}
    {
      entries := entries - {k};
    }
  }
}
