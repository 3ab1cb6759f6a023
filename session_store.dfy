/** The session store (src/context/AuthProvider.tsx): an `isAuthenticated`
    flag derived from the persisted access token, set by a check on mount and
    by `login` / `logout`. The provider exposes no `loading` flag. */
module SessionStore {
  import opened LocalStorage

  class AuthProvider {
    var isAuthenticated: bool
    const storage: TokenStore

    /** The flag is false until the mount check has run. */
    constructor (storage: TokenStore)
      ensures this.storage == storage
      ensures !isAuthenticated
    {
      this.storage := storage;
      isAuthenticated := false;
    }

    /** The effect run once on mount: `setIsAuthenticated(!!token)`. The
        token's expiry is not examined, and the store is not touched. */
    method MountCheck()
      modifies this
      ensures isAuthenticated == HasAccessToken(storage.entries)
    {
      var token := GetItem(storage.entries, AccessKey);
      isAuthenticated := token.Some? && token.value != "";
    }

    /** `login(access, refresh)`: store both tokens, overwriting earlier
        ones, and mark the session authenticated. */
    method Login(access: string, refresh: string)
      modifies this, storage
      ensures storage.entries == AfterLogin(old(storage.entries), access, refresh)
      ensures isAuthenticated
    {
      storage.SetItem(AccessKey, access);
      storage.SetItem(RefreshKey, refresh);
      isAuthenticated := true;
    }

    /** `logout()`: remove both tokens and clear the flag, whatever the
        state was before. */
    method Logout()
      modifies this, storage
      ensures storage.entries == AfterLogout(old(storage.entries))
      ensures !isAuthenticated
    {
      storage.RemoveItem(AccessKey);
      storage.RemoveItem(RefreshKey);
      isAuthenticated := false;
    }
  }
}
