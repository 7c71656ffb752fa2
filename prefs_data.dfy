/**
 * `UserPreferencesDataAccess`: one preference row per user, keyed by the
 * user's id (a map here), read-or-create and upsert.
 */
module PrefsData {
  import opened Wrappers
  import opened Entities
  import opened Database

  /** `GetByUserIdAsync`. */
  function GetByUserId(prefs: map<Uuid, UserPreference>, userId: Uuid): (r: Option<UserPreference>)
    ensures r.Some? <==> userId in prefs
    ensures r.Some? ==> r.value == prefs[userId]
  {
    if userId in prefs then Some(prefs[userId]) else None
  }

  /** The table after `GetOrCreateAsync`: a missing row is added with the default. */
  function AfterGetOrCreate(prefs: map<Uuid, UserPreference>, userId: Uuid, defaultItemsPerPage: Int32): (r: map<Uuid, UserPreference>)
    ensures userId in r
    ensures userId in prefs ==> r == prefs
    ensures userId !in prefs ==> r == prefs[userId := UserPreference(userId, defaultItemsPerPage)]
  {
    if userId in prefs then prefs else prefs[userId := UserPreference(userId, defaultItemsPerPage)]
  }

  /** The table after `SetItemsPerPageAsync`: the row exists and holds the value. */
  function AfterSetItemsPerPage(prefs: map<Uuid, UserPreference>, userId: Uuid, itemsPerPage: Int32): (r: map<Uuid, UserPreference>)
    ensures userId in r && r[userId] == UserPreference(userId, itemsPerPage)
    ensures forall k :: k in prefs && k != userId ==> k in r && r[k] == prefs[k]
    ensures r.Keys == prefs.Keys + {userId}
  {
    prefs[userId := UserPreference(userId, itemsPerPage)]
  }

  /** `GetOrCreateAsync`: an existing row is returned untouched and nothing is inserted. */
  method GetOrCreate(db: HoneydewDb, userId: Uuid, defaultItemsPerPage: Int32) returns (p: UserPreference)
    requires db.Valid()
    modifies db`userPreferences
    ensures db.Valid()
    ensures db.userPreferences == AfterGetOrCreate(old(db.userPreferences), userId, defaultItemsPerPage)
    ensures p == db.userPreferences[userId]
    ensures userId in old(db.userPreferences) ==> p == old(db.userPreferences)[userId]
    ensures userId !in old(db.userPreferences) ==> p == UserPreference(userId, defaultItemsPerPage)
  {
    var existing := GetByUserId(db.userPreferences, userId);
    if existing.Some? {
      return existing.value;
    }
    p := UserPreference(userId, defaultItemsPerPage);
    db.userPreferences := db.userPreferences[userId := p];
  }

  /** `SetItemsPerPageAsync`: an upsert that always reports success. */
  method SetItemsPerPage(db: HoneydewDb, userId: Uuid, itemsPerPage: Int32) returns (ok: bool)
    requires db.Valid()
    modifies db`userPreferences
    ensures db.Valid()
    ensures ok
    ensures db.userPreferences == AfterSetItemsPerPage(old(db.userPreferences), userId, itemsPerPage)
  {
    var existing := GetByUserId(db.userPreferences, userId);
    if existing.None? {
      db.userPreferences := db.userPreferences[userId := UserPreference(userId, itemsPerPage)];
    } else {
      db.userPreferences := db.userPreferences[userId := existing.value.(itemsPerPage := itemsPerPage)];
    }
    return true;
  }

  /** A second read-or-create inserts nothing, whatever default it passes. */
  lemma GetOrCreateOnce(prefs: map<Uuid, UserPreference>, userId: Uuid, d1: Int32, d2: Int32)
    ensures AfterGetOrCreate(AfterGetOrCreate(prefs, userId, d1), userId, d2) == AfterGetOrCreate(prefs, userId, d1)
    ensures |AfterGetOrCreate(prefs, userId, d1).Keys| <= |prefs.Keys| + 1
  {
    if userId !in prefs {
      assert AfterGetOrCreate(prefs, userId, d1).Keys == prefs.Keys + {userId};
    }
  }

  /** After an upsert, reading the row returns the stored value and inserts nothing. */
  lemma SetThenGet(prefs: map<Uuid, UserPreference>, userId: Uuid, itemsPerPage: Int32, d: Int32)
    ensures var after := AfterSetItemsPerPage(prefs, userId, itemsPerPage);
      && AfterGetOrCreate(after, userId, d) == after
      && GetByUserId(after, userId) == Some(UserPreference(userId, itemsPerPage))
  {
  }
}
