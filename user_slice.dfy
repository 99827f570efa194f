/**
 * The Redux user slice (web-app/src/app/redux/features/user/slice.ts): the connected address, whether
 * it came from local storage, whether it is being checked, and the active chain. An address read back
 * from storage does not log the user in until the wallet sets it again.
 */
module UserSlice {
  import opened Wrappers
  import Legacy = LegacyUserSlice

  // The key, the saved record, `persistPlaybook` and the `remember` rule for the address are
  // written the same way in both versions of the slice and are the ones of module LegacyUserSlice.

  /** `selectIsUserLoggedIn`: checked, set by the wallet rather than remembered, and a non-empty address. */
  predicate IsLoggedIn(isLoading: bool, isFromLocalStorage: bool, activeAddress: Option<string>)
    ensures IsLoggedIn(isLoading, isFromLocalStorage, activeAddress) ==> activeAddress.Some? && |activeAddress.value| > 0
    ensures isLoading || isFromLocalStorage ==> !IsLoggedIn(isLoading, isFromLocalStorage, activeAddress)
  {
    !isLoading && !isFromLocalStorage && Legacy.IsTruthyAddress(activeAddress)
  }

  class UserState {
    var isFromLocalStorage: bool
    var activeAddress: Option<string>
    var isLoading: bool
    var activeChainId: Option<string>

    /** `initialState`: nothing remembered, no address, loading, chain not known yet. */
    constructor ()
      ensures !isFromLocalStorage && activeAddress == None && isLoading && activeChainId == None
    {
      isFromLocalStorage := false;
      activeAddress := None;
      isLoading := true;
      activeChainId := None;
    }

    predicate IsUserLoggedIn()
      reads this
      ensures IsUserLoggedIn() ==> !isLoading && !isFromLocalStorage && activeAddress.Some? && |activeAddress.value| > 0
    {
      IsLoggedIn(isLoading, isFromLocalStorage, activeAddress)
    }

    /** `setActiveAddress`: the address comes from the wallet, so it is no longer the remembered one. */
    method SetActiveAddress(payload: Option<string>)
      modifies this
      ensures activeAddress == payload && !isFromLocalStorage
      ensures isLoading == old(isLoading) && activeChainId == old(activeChainId)
    {
      activeAddress := payload;
      isFromLocalStorage := false;
    }

    /** `setIsUserLoading`: replaces the loading flag only. */
    method SetIsUserLoading(payload: bool)
      modifies this
      ensures isLoading == payload
      ensures activeAddress == old(activeAddress) && isFromLocalStorage == old(isFromLocalStorage)
      ensures activeChainId == old(activeChainId)
    {
      isLoading := payload;
    }

    /** `setActiveChainId`: the payload is never null. */
    method SetActiveChainId(payload: string)
      modifies this
      ensures activeChainId == Some(payload)
      ensures activeAddress == old(activeAddress) && isFromLocalStorage == old(isFromLocalStorage)
      ensures isLoading == old(isLoading)
    {
      activeChainId := Some(payload);
    }

    /** `remember`: takes the saved address and marks it as coming from local storage. */
    method Remember(payload: Option<Legacy.PersistedUser>)
      modifies this
      ensures activeAddress == Legacy.RememberedAddress(payload) && isFromLocalStorage
      ensures isLoading == old(isLoading) && activeChainId == old(activeChainId)
      ensures !IsUserLoggedIn()
    {
      var remembered := if payload.Some? then payload.value.activeAddress else None;
      activeAddress := if Legacy.IsTruthyAddress(remembered) then remembered else None;
      isFromLocalStorage := true;
    }
  }

  /** Only a non-empty address, set by the wallet after loading has finished, logs the user in. */
  lemma LoggedInNeedsWalletAddress(isLoading: bool, isFromLocalStorage: bool, activeAddress: Option<string>)
    ensures IsLoggedIn(isLoading, isFromLocalStorage, activeAddress) ==> activeAddress.Some? && activeAddress.value != ""
    ensures activeAddress == Some("") || activeAddress == None ==> !IsLoggedIn(isLoading, isFromLocalStorage, activeAddress)
    ensures isFromLocalStorage ==> !IsLoggedIn(isLoading, isFromLocalStorage, activeAddress)
  {
  }

  /** Saving and reading back restores a non-empty address, marked as remembered. */
  method RestoreFromStorage(saved: UserState) returns (restoredAddress: Option<string>, restoredFromStorage: bool, loggedIn: bool)
    ensures Legacy.IsTruthyAddress(saved.activeAddress) ==> restoredAddress == saved.activeAddress
    ensures !Legacy.IsTruthyAddress(saved.activeAddress) ==> restoredAddress == None
    ensures restoredFromStorage && !loggedIn
  {
    var (_, data) := Legacy.PersistPlaybook(saved.activeAddress);
    var store := new UserState();
    store.Remember(data);
    restoredAddress, restoredFromStorage, loggedIn := store.activeAddress, store.isFromLocalStorage, store.IsUserLoggedIn();
  }

  /**
   * The login sequence: a remembered address is not logged in; once the wallet sets the same address
   * and loading ends, it is.
   */
  method RememberThenConfirm(address: string) returns (loggedInWhenRemembered: bool, loggedInWhenConfirmed: bool)
    requires address != ""
    ensures !loggedInWhenRemembered && loggedInWhenConfirmed
  {
    var store := new UserState();
    store.Remember(Some(Legacy.PersistedUser(Some(address))));
    loggedInWhenRemembered := store.IsUserLoggedIn();
    store.SetActiveAddress(Some(address));
    store.SetIsUserLoading(false);
    loggedInWhenConfirmed := store.IsUserLoggedIn();
  }
}
