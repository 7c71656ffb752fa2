/**
 * `AuthDataAccess`: the queries and writes sign-up and sign-in need, across
 * every tenant: users by e-mail, API clients by client id, the combined
 * tenant-and-owner insert, the last-login stamp and the API-client insert.
 */
module AuthData {
  import opened Wrappers
  import opened Entities
  import opened Linq
  import opened Database
  import opened UsersData

  /** `AnyUserWithEmailAsync`: is the address used in any tenant? */
  function AnyUserWithEmail(users: seq<User>, email: string): (r: bool)
    ensures r <==> exists u :: u in users && u.email == email
  {
    Any(users, (u: User) => u.email == email)
  }

  predicate ActiveWithEmail(u: User, email: string) {
    u.email == email && u.isActive
  }

  /** `GetUsersByEmailWithTenantAsync`: the active users with that address, in every tenant. */
  function GetUsersByEmailWithTenant(users: seq<User>, email: string): (r: seq<User>)
    ensures forall u :: u in r <==> u in users && ActiveWithEmail(u, email)
  {
    Where(users, (u: User) => ActiveWithEmail(u, email))
  }

  /** In a valid table, the active users with one address lie in pairwise different tenants. */
  lemma ByEmailOnePerTenant(users: seq<User>, email: string)
    requires UniqueEmailPerTenant(users)
    ensures var r := GetUsersByEmailWithTenant(users, email);
      forall i, j :: 0 <= i < j < |r| ==> r[i].tenantId != r[j].tenantId
  {
    WhereKeepsEmailIndex(users, (u: User) => ActiveWithEmail(u, email));
  }

  /** A subsequence of a table with a unique (tenant, e-mail) index keeps the index unique. */
  lemma {:induction false} WhereKeepsEmailIndex(users: seq<User>, p: User -> bool)
    requires UniqueEmailPerTenant(users)
    ensures UniqueEmailPerTenant(Where(users, p))
    decreases |users|
  {
    if users != [] {
      WhereKeepsEmailIndex(users[1..], p);
      var rest := Where(users[1..], p);
      forall u | u in rest
        ensures u.tenantId != users[0].tenantId || u.email != users[0].email
      {
        var k :| 0 <= k < |users[1..]| && users[1..][k] == u;
        assert users[k + 1] == u;
      }
    }
  }

  /** `AddTenantAndUserAsync`: both rows in one save. */
  method AddTenantAndUser(db: HoneydewDb, tenant: Tenant, user: User)
    requires db.Valid()
    requires forall t :: t in db.tenants ==> t.id != tenant.id
    requires !HasUserId(db.users, user.id)
    requires !ExistsEmailInTenant(db.users, user.tenantId, user.email)
    modifies db`tenants, db`users
    ensures db.Valid()
    ensures db.tenants == old(db.tenants) + [tenant]
    ensures db.users == old(db.users) + [user]
  {
    FreeEmailKeepsUnique(db.users, user);
    db.tenants := db.tenants + [tenant];
    db.users := db.users + [user];
  }

  /** `UpdateUserLastLoginAsync`: stamp `now` on the user, when it exists. */
  method UpdateUserLastLogin(db: HoneydewDb, userId: Uuid, now: DateTime)
    requires db.Valid()
    modifies db`users
    ensures db.Valid()
    ensures OwnersKept(old(db.users), db.users)
    ensures GetById(old(db.users), userId).None? ==> db.users == old(db.users)
    ensures GetById(old(db.users), userId).Some? ==>
      db.users == Replace(old(db.users), GetById(old(db.users), userId).value.(lastLoginAt := Some(now)))
  {
    var user := GetById(db.users, userId);
    if user.None? {
      return;
    }
    var stamped := user.value.(lastLoginAt := Some(now));
    forall v | v in db.users && v.id != stamped.id
      ensures v.tenantId != stamped.tenantId || v.email != stamped.email
    {
      var i :| 0 <= i < |db.users| && db.users[i] == v;
      var j :| 0 <= j < |db.users| && db.users[j] == user.value;
      assert i != j;
    }
    ReplaceKeepsKeys(db.users, stamped);
    forall t | TenantHasOwner(db.users, t)
      ensures TenantHasOwner(Replace(db.users, stamped), t)
    {
      var w :| w in db.users && IsOwnerOf(w, t);
      if w.id == stamped.id {
        assert IsOwnerOf(stamped, t) by {
          GetByIdFinds(db.users, w);
        }
      } else {
        assert w in Replace(db.users, stamped);
      }
    }
    SaveUser(db, stamped);
  }

  /** `GetApiClientByClientIdWithTenantAsync`: the active client with that client id. */
  function GetApiClientByClientId(clients: seq<ApiClient>, clientId: string): (r: Option<ApiClient>)
    ensures r.Some? ==> r.value in clients && r.value.clientId == clientId && r.value.isActive
    ensures r.None? <==> forall c :: c in clients ==> c.clientId != clientId || !c.isActive
  {
    FirstOrDefault(clients, (c: ApiClient) => c.clientId == clientId && c.isActive)
  }

  /** `AnyApiClientWithClientIdAsync`: is the client id taken, by an active client or not? */
  function AnyApiClientWithClientId(clients: seq<ApiClient>, clientId: string): (r: bool)
    ensures r <==> exists c :: c in clients && c.clientId == clientId
  {
    Any(clients, (c: ApiClient) => c.clientId == clientId)
  }

  /** `AddApiClientAsync`: the unique indexes must admit the row. */
  method AddApiClient(db: HoneydewDb, client: ApiClient)
    requires db.Valid()
    requires forall c :: c in db.apiClients ==> c.id != client.id
    requires !AnyApiClientWithClientId(db.apiClients, client.clientId)
    modifies db`apiClients
    ensures db.Valid()
    ensures db.apiClients == old(db.apiClients) + [client]
  {
    var s := db.apiClients + [client];
    forall i, j | 0 <= i < j < |s|
      ensures s[i].id != s[j].id && s[i].clientId != s[j].clientId
    {
      if j == |db.apiClients| {
        assert s[i] in db.apiClients;
      }
    }
    db.apiClients := s;
  }
}
