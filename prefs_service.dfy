/**
 * `UserPreferencesService`: the number of todos a user sees per page, one of
 * a fixed set of values, 9 unless the user chose another.
 */
module PrefsService {
  import opened Wrappers
  import opened Entities
  import opened Database
  import opened PrefsData

  const DefaultItemsPerPage: Int32 := 9
  const AllowedItemsPerPage: seq<int> := [9, 12, 15, 18, 21, 24]
  const InvalidItemsPerPage: string := "Invalid items per page value."

  datatype UserPreferencesResponse = UserPreferencesResponse(itemsPerPage: int)

  predicate Allowed(n: int) {
    n in AllowedItemsPerPage
  }

  /** The allowed values are the multiples of three from 9 to 24. */
  lemma AllowedValues(n: int)
    ensures Allowed(n) <==> 9 <= n <= 24 && n % 3 == 0
  {
    if 9 <= n <= 24 && n % 3 == 0 {
      assert n == 9 || n == 12 || n == 15 || n == 18 || n == 21 || n == 24;
    }
  }

  /** Every stored preference holds an allowed value. */
  ghost predicate AllAllowed(prefs: map<Uuid, UserPreference>) {
    forall k :: k in prefs ==> Allowed(prefs[k].itemsPerPage)
  }

  /** `GetAsync`: the user's value, the default one being stored on first read. */
  method Get(db: HoneydewDb, userId: Uuid) returns (resp: UserPreferencesResponse)
    requires db.Valid()
    modifies db`userPreferences
    ensures db.Valid()
    ensures db.userPreferences == AfterGetOrCreate(old(db.userPreferences), userId, DefaultItemsPerPage)
    ensures resp.itemsPerPage == if userId in old(db.userPreferences) then old(db.userPreferences)[userId].itemsPerPage else DefaultItemsPerPage
    ensures AllAllowed(old(db.userPreferences)) ==> AllAllowed(db.userPreferences) && Allowed(resp.itemsPerPage)
  {
    var p := GetOrCreate(db, userId, DefaultItemsPerPage);
    resp := UserPreferencesResponse(p.itemsPerPage);
  }

  /** `SetItemsPerPageAsync`: a value outside the allowed set is refused before the store is touched. */
  method SetItemsPerPage(db: HoneydewDb, userId: Uuid, itemsPerPage: Int32) returns (r: Result<UserPreferencesResponse>)
    requires db.Valid()
    modifies db`userPreferences
    ensures db.Valid()
    ensures r.Failure? <==> !Allowed(itemsPerPage)
    ensures r.Failure? ==> r.error == InvalidItemsPerPage && db.userPreferences == old(db.userPreferences)
    ensures r.Success? ==>
      && r.value == UserPreferencesResponse(itemsPerPage)
      && db.userPreferences == AfterSetItemsPerPage(old(db.userPreferences), userId, itemsPerPage)
    ensures AllAllowed(old(db.userPreferences)) ==> AllAllowed(db.userPreferences)
  {
    if itemsPerPage !in AllowedItemsPerPage {
      return Failure(InvalidItemsPerPage);
    }
    var _ := PrefsData.SetItemsPerPage(db, userId, itemsPerPage);
    var resp := Get(db, userId);
    r := Success(resp);
  }
}
