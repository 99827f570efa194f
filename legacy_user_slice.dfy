/**
 * The earlier Redux user slice (web-app/app/redux/features/user/slice.ts): the connected address and
 * whether it is still being checked, with the playbooks that save the address to local storage and
 * read it back.
 */
module LegacyUserSlice {
  import opened Wrappers

  const SLICE_NAME := "user"
  const SLICE_LOCALSTORAGE_KEY := SLICE_NAME

  /** `DataToPersist` when it is not `null`: `{ activeAddress }`. */
  datatype PersistedUser = PersistedUser(activeAddress: Option<string>)

  /** JavaScript truthiness of an address: present and not the empty string. */
  predicate IsTruthyAddress(a: Option<string>) {
    a.Some? && a.value != ""
  }

  /** `payload?.activeAddress || null`: no payload, a null address and an empty address all give null. */
  function RememberedAddress(payload: Option<PersistedUser>): (a: Option<string>)
    ensures a.Some? <==> payload.Some? && IsTruthyAddress(payload.value.activeAddress)
    ensures a.Some? ==> a == payload.value.activeAddress && a.value != ""
  {
    if payload.Some? && IsTruthyAddress(payload.value.activeAddress) then payload.value.activeAddress else None
  }

  /** `persistPlaybook`: the slice's storage key and the address to save under it. */
  function PersistPlaybook(activeAddress: Option<string>): (r: (string, Option<PersistedUser>))
    ensures r.0 == SLICE_LOCALSTORAGE_KEY && r.1 == Some(PersistedUser(activeAddress))
  {
    (SLICE_LOCALSTORAGE_KEY, Some(PersistedUser(activeAddress)))
  }

  /** Reading back what was saved gives the same address when it was truthy and null otherwise. */
  lemma PersistRememberRoundTrip(activeAddress: Option<string>)
    ensures RememberedAddress(PersistPlaybook(activeAddress).1) == if IsTruthyAddress(activeAddress) then activeAddress else None
  {
  }

  class UserState {
    var activeAddress: Option<string>
    var isLoading: bool

    /** `initialState`: no address, still loading. */
    constructor ()
      ensures activeAddress == None && isLoading
    {
      activeAddress := None;
      isLoading := true;
    }

    /** `setActiveAddress`: replaces the address only. */
    method SetActiveAddress(payload: Option<string>)
      modifies this
      ensures activeAddress == payload && isLoading == old(isLoading)
    {
      activeAddress := payload;
    }

    /** `setIsUserLoading`: replaces the loading flag only. */
    method SetIsUserLoading(payload: bool)
      modifies this
      ensures isLoading == payload && activeAddress == old(activeAddress)
    {
      isLoading := payload;
    }

    /**
     * `remember`: takes the saved address; a remembered address still has to be confirmed by the
     * wallet, so the user is loading exactly when there is one.
     */
    method Remember(payload: Option<PersistedUser>)
      modifies this
      ensures activeAddress == RememberedAddress(payload)
      ensures isLoading <==> activeAddress.Some?
    {
      var remembered := if payload.Some? then payload.value.activeAddress else None;
      activeAddress := if IsTruthyAddress(remembered) then remembered else None;
      isLoading := IsTruthyAddress(remembered);
    }
  }

  /** A saved state read back into a fresh slice: the address survives when truthy, and the slice is loading. */
  method RestoreFromStorage(saved: UserState) returns (restoredAddress: Option<string>, restoredIsLoading: bool)
    ensures IsTruthyAddress(saved.activeAddress) ==> restoredAddress == saved.activeAddress && restoredIsLoading
    ensures !IsTruthyAddress(saved.activeAddress) ==> restoredAddress == None && !restoredIsLoading
  {
    var (_, data) := PersistPlaybook(saved.activeAddress);
    var store := new UserState();
    store.Remember(data);
    restoredAddress, restoredIsLoading := store.activeAddress, store.isLoading;
  }
}
