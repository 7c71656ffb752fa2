/**
 * `UsersDataAccess`: user lookups by id and by (id, tenant), the tenant's
 * roster ordered by display name, the two e-mail existence probes, the owner
 * count and the three writes (add, save a tracked edit, delete).
 *
 * It also states the household's owner invariant: once a tenant has an
 * `Owner`, the user operations never leave it without one.
 */
module UsersData {
  import opened Wrappers
  import opened Entities
  import opened Linq
  import opened Ordering
  import opened Database

  /** `FindAsync(userId)`: the row whose primary key is `userId`. */
  function GetById(users: seq<User>, userId: Uuid): (r: Option<User>)
    ensures r.Some? ==> r.value in users && r.value.id == userId
    ensures r.None? <==> !HasUserId(users, userId)
  {
    FirstOrDefault(users, (u: User) => u.id == userId)
  }

  /** With unique keys the lookup finds every stored row. */
  lemma GetByIdFinds(users: seq<User>, u: User)
    requires UniqueUserIds(users) && u in users
    ensures GetById(users, u.id) == Some(u)
  {
    var v := GetById(users, u.id).value;
    var i :| 0 <= i < |users| && users[i] == u;
    var j :| 0 <= j < |users| && users[j] == v;
    assert i == j;
  }

  /** `FirstOrDefault(u => u.Id == userId && u.TenantId == tenantId)`. */
  function GetByIdAndTenantId(users: seq<User>, userId: Uuid, tenantId: Uuid): (r: Option<User>)
    ensures r.Some? ==> r.value in users && r.value.id == userId && r.value.tenantId == tenantId
    ensures r.None? <==> forall u :: u in users ==> u.id != userId || u.tenantId != tenantId
  {
    FirstOrDefault(users, (u: User) => u.id == userId && u.tenantId == tenantId)
  }

  /**
   * The caller resolution every service starts with: `GetByIdAsync(userId)`
   * followed by the `TenantId` check.
   */
  function CurrentUser(users: seq<User>, userId: Uuid, tenantId: Uuid): (r: Option<User>)
    ensures r.Some? ==> r.value in users && r.value.id == userId && r.value.tenantId == tenantId
  {
    match GetById(users, userId)
    case Some(u) => if u.tenantId == tenantId then Some(u) else None
    case None => None
  }

  /** Looking a user up and then checking the tenant is the tenant-scoped query. */
  lemma CurrentUserIsTenantScoped(users: seq<User>, userId: Uuid, tenantId: Uuid)
    requires UniqueUserIds(users)
    ensures CurrentUser(users, userId, tenantId) == GetByIdAndTenantId(users, userId, tenantId)
  {
    var scoped := GetByIdAndTenantId(users, userId, tenantId);
    if scoped.Some? {
      GetByIdFinds(users, scoped.value);
    }
  }

  /** Ordinal string order, character by character (SQLite's BINARY collation). */
  predicate OrdinalLe(a: string, b: string)
    decreases |a|
  {
    a == [] || (b != [] && (a[0] < b[0] || (a[0] == b[0] && OrdinalLe(a[1..], b[1..]))))
  }

  function Codes(s: string): (r: seq<int>)
    ensures |r| == |s|
    ensures forall i :: 0 <= i < |s| ==> r[i] == s[i] as int
  {
    seq(|s|, i requires 0 <= i < |s| => s[i] as int)
  }

  /** The sort key of `OrderBy(u => u.DisplayName)`. */
  function DisplayNameKey(u: User): seq<int> {
    Codes(u.displayName)
  }

  /** Comparing character codes lexicographically is the ordinal string order. */
  lemma {:induction false} CodesOrder(a: string, b: string)
    ensures LexLe(Codes(a), Codes(b)) <==> OrdinalLe(a, b)
    decreases |a|
  {
    if a != [] && b != [] {
      assert Codes(a)[1..] == Codes(a[1..]);
      assert Codes(b)[1..] == Codes(b[1..]);
      CodesOrder(a[1..], b[1..]);
    }
  }

  predicate Listed(u: User, tenantId: Uuid, activeOnly: bool) {
    u.tenantId == tenantId && (activeOnly ==> u.isActive)
  }

  /** `GetByTenantIdAsync`: the tenant's users (only active ones when asked), by display name. */
  function GetByTenantId(users: seq<User>, tenantId: Uuid, activeOnly: bool): (r: seq<User>)
    ensures forall u :: u in r <==> u in users && Listed(u, tenantId, activeOnly)
    ensures multiset(r) == multiset(Where(users, (u: User) => Listed(u, tenantId, activeOnly)))
    ensures forall i, j :: 0 <= i < j < |r| ==> OrdinalLe(r[i].displayName, r[j].displayName)
  {
    var selected := Where(users, (u: User) => Listed(u, tenantId, activeOnly));
    SortBySorted(selected, DisplayNameKey);
    var r := SortBy(selected, DisplayNameKey);
    forall i, j | 0 <= i < j < |r|
      ensures OrdinalLe(r[i].displayName, r[j].displayName)
    {
      CodesOrder(r[i].displayName, r[j].displayName);
    }
    r
  }

  /** Is the (tenant, e-mail) pair taken? */
  predicate EmailTaken(users: seq<User>, tenantId: Uuid, email: string) {
    exists u :: u in users && u.tenantId == tenantId && u.email == email
  }

  /** `ExistsEmailInTenantAsync`. */
  function ExistsEmailInTenant(users: seq<User>, tenantId: Uuid, email: string): (r: bool)
    ensures r <==> EmailTaken(users, tenantId, email)
  {
    Any(users, (u: User) => u.tenantId == tenantId && u.email == email)
  }

  /** `ExistsEmailInTenantExcludingUserAsync`: taken by somebody other than `excludeUserId`. */
  function ExistsEmailInTenantExcludingUser(users: seq<User>, tenantId: Uuid, email: string, excludeUserId: Uuid): (r: bool)
    ensures r <==> exists u :: u in users && u.tenantId == tenantId && u.email == email && u.id != excludeUserId
  {
    Any(users, (u: User) => u.tenantId == tenantId && u.email == email && u.id != excludeUserId)
  }

  /** A free (tenant, e-mail) pair can be appended without breaking the unique index. */
  lemma FreeEmailKeepsUnique(users: seq<User>, u: User)
    requires UniqueEmailPerTenant(users)
    requires !ExistsEmailInTenant(users, u.tenantId, u.email)
    ensures UniqueEmailPerTenant(users + [u])
  {
    var s := users + [u];
    forall i, j | 0 <= i < j < |s|
      ensures s[i].tenantId != s[j].tenantId || s[i].email != s[j].email
    {
      if j == |users| {
        assert s[i] in users;
      }
    }
  }

  /** `CountOwnersInTenantAsync`. */
  function CountOwners(users: seq<User>, tenantId: Uuid): (r: nat)
    ensures r == |Where(users, (u: User) => IsOwnerOf(u, tenantId))|
    ensures r <= |users|
    ensures r == 0 <==> !TenantHasOwner(users, tenantId)
  {
    Count(users, (u: User) => IsOwnerOf(u, tenantId))
  }

  predicate IsOwnerOf(u: User, tenantId: Uuid) {
    u.tenantId == tenantId && u.role == Owner
  }

  predicate TenantHasOwner(users: seq<User>, tenantId: Uuid) {
    exists u :: u in users && IsOwnerOf(u, tenantId)
  }

  /** The owner invariant across one operation: no tenant that had an owner loses its last one. */
  ghost predicate OwnersKept(before: seq<User>, after: seq<User>) {
    forall t :: TenantHasOwner(before, t) ==> TenantHasOwner(after, t)
  }

  /** The filter a delete by key leaves behind. */
  function OtherThan(userId: Uuid): User -> bool {
    (u: User) => u.id != userId
  }

  /** A subsequence of a table with unique keys has unique keys. */
  lemma {:induction false} WhereKeepsUniqueIds(users: seq<User>, p: User -> bool)
    requires UniqueUserIds(users)
    ensures UniqueUserIds(Where(users, p))
    decreases |users|
  {
    if users != [] {
      WhereKeepsUniqueIds(users[1..], p);
      var rest := Where(users[1..], p);
      forall u | u in rest
        ensures u.id != users[0].id
      {
        var k :| 0 <= k < |users[1..]| && users[1..][k] == u;
        assert users[k + 1] == u;
      }
    }
  }

  /** With two owners in the tenant, removing any one user leaves an owner behind. */
  lemma SecondOwnerRemains(users: seq<User>, tenantId: Uuid, userId: Uuid)
    requires UniqueUserIds(users)
    requires CountOwners(users, tenantId) > 1
    ensures TenantHasOwner(Where(users, OtherThan(userId)), tenantId)
  {
    var owners := Where(users, (u: User) => IsOwnerOf(u, tenantId));
    WhereKeepsUniqueIds(users, (u: User) => IsOwnerOf(u, tenantId));
    assert |owners| >= 2;
    var w := if owners[0].id != userId then owners[0] else owners[1];
    assert w in owners;
    assert w in Where(users, OtherThan(userId));
  }

  /** Dropping the first row keeps the keys unique. */
  lemma TailUnique(users: seq<User>)
    requires UniqueUserIds(users) && |users| > 0
    ensures UniqueUserIds(users[1..])
  {
    var tail := users[1..];
    forall i, j | 0 <= i < j < |tail|
      ensures tail[i].id != tail[j].id
    {
      assert tail[i] == users[i + 1] && tail[j] == users[j + 1];
    }
  }

  /** Only the first row has the first row's key. */
  lemma FirstKeyOnlyFirst(users: seq<User>)
    requires UniqueUserIds(users) && |users| > 0
    ensures Where(users[1..], OtherThan(users[0].id)) == users[1..]
  {
    forall u | u in users[1..]
      ensures OtherThan(users[0].id)(u)
    {
      var j :| 0 <= j < |users[1..]| && users[1..][j] == u;
      assert users[j + 1] == u;
    }
    WhereAll(users[1..], OtherThan(users[0].id));
  }

  /** Removing the row at `k` is filtering out its key, when keys are unique. */
  lemma {:induction false} RemoveAtIsWhere(users: seq<User>, k: nat, userId: Uuid)
    requires UniqueUserIds(users)
    requires k < |users| && users[k].id == userId
    ensures RemoveAt(users, k) == Where(users, OtherThan(userId))
    decreases k
  {
    assert users == [users[0]] + users[1..];
    if k == 0 {
      FirstKeyOnlyFirst(users);
    } else {
      var tail := users[1..];
      TailUnique(users);
      assert tail[k - 1] == users[k];
      RemoveAtIsWhere(tail, k - 1, userId);
      assert users[0].id != userId;
      RemoveAtCons(users, k);
    }
  }

  /** A tracked edit of the row keyed `u.id` after `SaveChanges`: that row becomes `u`. */
  function Replace(users: seq<User>, u: User): (r: seq<User>)
    ensures |r| == |users|
    ensures forall i :: 0 <= i < |users| ==> r[i] == if users[i].id == u.id then u else users[i]
  {
    Select(users, (v: User) => if v.id == u.id then u else v)
  }

  /** Replacing a row by one with the same key keeps the keys unique and puts the new row in. */
  lemma ReplaceKeepsKeys(users: seq<User>, u: User)
    requires UniqueUserIds(users) && HasUserId(users, u.id)
    ensures UniqueUserIds(Replace(users, u))
    ensures u in Replace(users, u)
    ensures forall v :: v in users && v.id != u.id ==> v in Replace(users, u)
  {
    var r := Replace(users, u);
    var k :| k in users && k.id == u.id;
    var i :| 0 <= i < |users| && users[i] == k;
    assert r[i] == u;
    forall v | v in users && v.id != u.id
      ensures v in r
    {
      var j :| 0 <= j < |users| && users[j] == v;
      assert r[j] == v;
    }
  }

  /** `AddUserAsync`: the row is appended (the unique indexes must admit it). */
  method AddUser(db: HoneydewDb, user: User)
    requires db.Valid()
    requires !HasUserId(db.users, user.id)
    requires !ExistsEmailInTenant(db.users, user.tenantId, user.email)
    modifies db`users
    ensures db.Valid()
    ensures db.users == old(db.users) + [user]
  {
    FreeEmailKeepsUnique(db.users, user);
    db.users := db.users + [user];
  }

  /**
   * `SaveChangesAsync` after editing the tracked row `user.Id`: the row is
   * replaced; the edit must keep (TenantId, Email) free of clashes.
   */
  method SaveUser(db: HoneydewDb, user: User)
    requires db.Valid()
    requires HasUserId(db.users, user.id)
    requires forall v :: v in db.users && v.id != user.id ==> v.tenantId != user.tenantId || v.email != user.email
    modifies db`users
    ensures db.Valid()
    ensures db.users == Replace(old(db.users), user)
  {
    var r := Replace(db.users, user);
    forall i, j | 0 <= i < j < |r|
      ensures r[i].tenantId != r[j].tenantId || r[i].email != r[j].email
    {
      if db.users[i].id == user.id {
        assert db.users[j].id != user.id && db.users[j] in db.users;
      } else if db.users[j].id == user.id {
        assert db.users[i] in db.users;
      }
    }
    ReplaceKeepsKeys(db.users, user);
    db.users := r;
  }

  /** Taking one user out keeps the other users' emails unique within their tenants. */
  lemma RemoveAtKeepsEmails(users: seq<User>, k: nat)
    requires k < |users| && UniqueEmailPerTenant(users)
    ensures UniqueEmailPerTenant(RemoveAt(users, k))
  {
    var rest := RemoveAt(users, k);
    forall i, j | 0 <= i < j < |rest|
      ensures rest[i].tenantId != rest[j].tenantId || rest[i].email != rest[j].email
    {
      var i', j' := if i < k then i else i + 1, if j < k then j else j + 1;
      assert rest[i] == users[i'] && rest[j] == users[j'];
    }
  }

  /** `DeleteUserAsync`: removes the user when it is in the tenant; says whether it did. */
  method DeleteUser(db: HoneydewDb, userId: Uuid, tenantId: Uuid) returns (deleted: bool)
    requires db.Valid()
    modifies db`users
    ensures db.Valid()
    ensures deleted <==> GetByIdAndTenantId(old(db.users), userId, tenantId).Some?
    ensures !deleted ==> db.users == old(db.users)
    ensures deleted ==> db.users == Where(old(db.users), OtherThan(userId))
  {
    var k := IndexWhere(db.users, (u: User) => u.id == userId && u.tenantId == tenantId);
    if k.None? {
      return false;
    }
    RemoveAtIsWhere(db.users, k.value, userId);
    WhereKeepsUniqueIds(db.users, OtherThan(userId));
    RemoveAtKeepsEmails(db.users, k.value);
    db.users := RemoveAt(db.users, k.value);
    return true;
  }
}
