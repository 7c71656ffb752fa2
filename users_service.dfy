/**
 * `UsersService`: the household roster as the API exposes it. Every
 * operation resolves the caller in its tenant first ("Unauthorized"); the
 * writes keep the (tenant, e-mail) index unique and never remove a tenant's
 * last owner.
 */
module UsersService {
  import opened Wrappers
  import opened Entities
  import opened Strings
  import opened Hashing
  import opened Linq
  import Privilege
  import opened Database
  import opened UsersData

  datatype CreateUserRequest = CreateUserRequest(
    email: string,
    displayName: string,
    password: string,
    role: string,
    canViewAllTodos: bool,
    canEditAllTodos: bool,
    canCreateUser: bool)

  datatype UpdateUserRequest = UpdateUserRequest(
    displayName: Option<string>,
    role: Option<string>,
    canViewAllTodos: Option<bool>,
    canEditAllTodos: Option<bool>,
    canCreateUser: Option<bool>,
    isActive: Option<bool>)

  datatype UpdateCurrentUserRequest = UpdateCurrentUserRequest(
    displayName: Option<string>,
    email: Option<string>)

  datatype UserSummary = UserSummary(
    id: Uuid,
    email: string,
    displayName: string,
    role: string,
    canViewAllTodos: bool,
    canEditAllTodos: bool,
    canCreateUser: bool,
    isActive: bool,
    createdAt: DateTime)

  const EmailAndPasswordRequired: string := "Email and password are required."
  const EmailInUse: string := "A user with this email already exists in this household."
  const EmailEmpty: string := "Email cannot be empty."
  const LastOwner: string := "Cannot delete the last owner."

  /** `UserRole.ToString()`. */
  function RoleName(role: UserRole): string {
    match role
    case Member => "Member"
    case Owner => "Owner"
  }

  /**
   * `Enum.TryParse<UserRole>(s, ignoreCase: true, ...)` on the role names:
   * surrounding white space is ignored, letters compare without case.
   */
  function ParseRole(s: string): (r: Option<UserRole>)
    ensures r == Some(Owner) <==> ToLower(Trim(s)) == "owner"
    ensures r == Some(Member) <==> ToLower(Trim(s)) == "member"
  {
    var k := ToLower(Trim(s));
    if k == "member" then Some(Member)
    else if k == "owner" then Some(Owner)
    else None
  }

  /** Every role parses back from the name it prints as. */
  lemma ParseRoleName(role: UserRole)
    ensures ParseRole(RoleName(role)) == Some(role)
  {
    TrimmedIsFixed(RoleName(role));
  }

  /** Parsing ignores case. */
  lemma ParseRoleIgnoresCase(s: string)
    ensures ParseRole(ToLower(s)) == ParseRole(s)
  {
    TrimStartToLower(s);
    TrimEndToLower(TrimStart(s));
    ToLowerIdempotent(Trim(s));
  }

  /** `MapToSummary`: the user's public fields; the role is printed by name. */
  function MapToSummary(u: User): (r: UserSummary)
    ensures r.id == u.id && r.email == u.email && r.displayName == u.displayName
    ensures ParseRole(r.role) == Some(u.role)
    ensures r.isActive == u.isActive && r.createdAt == u.createdAt
    ensures r.canViewAllTodos == u.canViewAllTodos && r.canEditAllTodos == u.canEditAllTodos && r.canCreateUser == u.canCreateUser
  {
    ParseRoleName(u.role);
    UserSummary(u.id, u.email, u.displayName, RoleName(u.role),
      u.canViewAllTodos, u.canEditAllTodos, u.canCreateUser, u.isActive, u.createdAt)
  }

  /** The row `CreateUserAsync` stores for a request that passed every check. */
  function NewUser(id: Uuid, tenantId: Uuid, req: CreateUserRequest, salt: string, now: DateTime): (r: User)
    requires |salt| > 0
    ensures r.id == id && r.tenantId == tenantId && r.isActive
    ensures r.email == NormalizeEmail(req.email) && r.displayName == Trim(req.displayName)
    ensures r.role == ParseRole(req.role).GetOr(Member)
    ensures r.canViewAllTodos == req.canViewAllTodos && r.canEditAllTodos == req.canEditAllTodos && r.canCreateUser == req.canCreateUser
    ensures r.createdAt == now && r.lastLoginAt.None?
    ensures VerifyPassword(req.password, r.passwordHash, r.passwordSalt)
    ensures forall p :: VerifyPassword(p, r.passwordHash, r.passwordSalt) ==> p == req.password
  {
    var (hash, storedSalt) := HashPassword(req.password, salt);
    User(id, tenantId, NormalizeEmail(req.email), Trim(req.displayName), hash, Some(storedSalt),
      ParseRole(req.role).GetOr(Member), req.canViewAllTodos, req.canEditAllTodos, req.canCreateUser,
      true, now, None)
  }

  /** `ListUsersAsync`: the roster needs CreateUser unless it is only for picking an assignee. */
  function ListUsers(users: seq<User>, userId: Uuid, tenantId: Uuid, activeOnly: bool, forAssignmentOnly: bool): (r: Result<seq<UserSummary>>)
    ensures r.Failure? ==> r.error == "Unauthorized" || r.error == "Forbid"
    ensures r == Failure("Unauthorized") <==> CurrentUser(users, userId, tenantId).None?
    ensures r == Failure("Forbid") <==>
      CurrentUser(users, userId, tenantId).Some? && !forAssignmentOnly && !Privilege.CanCreateUser(CurrentUser(users, userId, tenantId).value)
    ensures r.Success? ==> r.value == Linq.Select(GetByTenantId(users, tenantId, activeOnly), MapToSummary)
    ensures r.Success? ==> forall u :: u in users && Listed(u, tenantId, activeOnly) ==> MapToSummary(u) in r.value
    ensures r.Success? ==> forall s :: s in r.value ==> exists u :: u in users && Listed(u, tenantId, activeOnly) && s == MapToSummary(u)
    ensures r.Success? ==> forall i, j :: 0 <= i < j < |r.value| ==> OrdinalLe(r.value[i].displayName, r.value[j].displayName)
  {
    match CurrentUser(users, userId, tenantId)
    case None => Failure("Unauthorized")
    case Some(caller) =>
      if !forAssignmentOnly && caller.role != Owner && !caller.canCreateUser then Failure("Forbid")
      else
        var listed := GetByTenantId(users, tenantId, activeOnly);
        SelectMembers(listed, MapToSummary);
        Success(Linq.Select(listed, MapToSummary))
  }

  /** `GetCurrentUserAsync`. */
  function GetCurrentUser(users: seq<User>, userId: Uuid, tenantId: Uuid): (r: Result<UserSummary>)
    ensures r.Failure? <==> CurrentUser(users, userId, tenantId).None?
    ensures r.Failure? ==> r.error == "Unauthorized"
    ensures r.Success? ==> r.value.id == userId && exists u :: u in users && u.id == userId && u.tenantId == tenantId && r.value == MapToSummary(u)
  {
    match CurrentUser(users, userId, tenantId)
    case None => Failure("Unauthorized")
    case Some(u) => Success(MapToSummary(u))
  }

  /** `CreateUserAsync`. `newId`, `salt` and `now` stand for `Guid.NewGuid()`, the random salt and the clock. */
  method CreateUser(db: HoneydewDb, userId: Uuid, tenantId: Uuid, req: CreateUserRequest, newId: Uuid, salt: string, now: DateTime)
    returns (r: Result<UserSummary>)
    requires db.Valid()
    requires !HasUserId(db.users, newId) && |salt| > 0
    modifies db`users
    ensures db.Valid()
    ensures OwnersKept(old(db.users), db.users)
    ensures r.Failure? ==> db.users == old(db.users)
    ensures r.Failure? ==> r.error in {"Unauthorized", "Forbid", EmailAndPasswordRequired, EmailInUse}
    ensures (r == Failure("Unauthorized")) <==> CurrentUser(old(db.users), userId, tenantId).None?
    ensures (r == Failure("Forbid")) <==>
      CurrentUser(old(db.users), userId, tenantId).Some? && !Privilege.CanCreateUser(CurrentUser(old(db.users), userId, tenantId).value)
    ensures (r == Failure(EmailAndPasswordRequired)) <==>
      && CurrentUser(old(db.users), userId, tenantId).Some? && Privilege.CanCreateUser(CurrentUser(old(db.users), userId, tenantId).value)
      && (NormalizeEmail(req.email) == [] || req.password == [])
    ensures (r == Failure(EmailInUse)) <==>
      && CurrentUser(old(db.users), userId, tenantId).Some? && Privilege.CanCreateUser(CurrentUser(old(db.users), userId, tenantId).value)
      && NormalizeEmail(req.email) != [] && req.password != []
      && EmailTaken(old(db.users), tenantId, NormalizeEmail(req.email))
    ensures r.Success? ==>
      && db.users == old(db.users) + [NewUser(newId, tenantId, req, salt, now)]
      && r.value == MapToSummary(NewUser(newId, tenantId, req, salt, now))
  {
    var caller := CurrentUser(db.users, userId, tenantId);
    if caller.None? {
      return Failure("Unauthorized");
    }
    if !Privilege.CanCreateUser(caller.value) {
      return Failure("Forbid");
    }
    var email := NormalizeEmail(req.email);
    if email == [] || req.password == [] {
      return Failure(EmailAndPasswordRequired);
    }
    if ExistsEmailInTenant(db.users, tenantId, email) {
      return Failure(EmailInUse);
    }
    var user := NewUser(newId, tenantId, req, salt, now);
    AddUser(db, user);
    assert forall u :: u in old(db.users) ==> u in db.users;
    r := Success(MapToSummary(user));
  }

  /**
   * The edit `UpdateUserAsync` makes to the tracked row: the display name is
   * always editable; an owner editing somebody else may also change the role
   * (when it parses) and the flags.
   */
  function ApplyUserUpdate(u: User, req: UpdateUserRequest, privileged: bool): (r: User)
    ensures r.id == u.id && r.tenantId == u.tenantId && r.email == u.email
    ensures r.passwordHash == u.passwordHash && r.passwordSalt == u.passwordSalt
    ensures r.displayName == if req.displayName.Some? then Trim(req.displayName.value) else u.displayName
    ensures r.createdAt == u.createdAt && r.lastLoginAt == u.lastLoginAt
    ensures !privileged ==> r.role == u.role && r.isActive == u.isActive
    ensures !privileged ==> r.canViewAllTodos == u.canViewAllTodos && r.canEditAllTodos == u.canEditAllTodos && r.canCreateUser == u.canCreateUser
  {
    var name := if req.displayName.Some? then Trim(req.displayName.value) else u.displayName;
    var role := if privileged && req.role.Some? && ParseRole(req.role.value).Some? then ParseRole(req.role.value).value else u.role;
    User(u.id, u.tenantId, u.email, name, u.passwordHash, u.passwordSalt, role,
      if privileged then req.canViewAllTodos.GetOr(u.canViewAllTodos) else u.canViewAllTodos,
      if privileged then req.canEditAllTodos.GetOr(u.canEditAllTodos) else u.canEditAllTodos,
      if privileged then req.canCreateUser.GetOr(u.canCreateUser) else u.canCreateUser,
      if privileged then req.isActive.GetOr(u.isActive) else u.isActive,
      u.createdAt, u.lastLoginAt)
  }

  /** Sending the same update twice has the effect of sending it once. */
  lemma ApplyUserUpdateIdempotent(u: User, req: UpdateUserRequest, privileged: bool)
    ensures ApplyUserUpdate(ApplyUserUpdate(u, req, privileged), req, privileged) == ApplyUserUpdate(u, req, privileged)
  {
    var once := ApplyUserUpdate(u, req, privileged);
    if req.displayName.Some? {
      TrimIdempotent(req.displayName.value);
    }
    var twice := ApplyUserUpdate(once, req, privileged);
    assert twice.displayName == once.displayName;
    assert twice.role == once.role;
  }

  /** An owner's edit of somebody else sets every field the request carries. */
  lemma OwnerUpdateApplies(u: User, req: UpdateUserRequest)
    ensures req.role.Some? && ParseRole(req.role.value).Some? ==> ApplyUserUpdate(u, req, true).role == ParseRole(req.role.value).value
    ensures req.isActive.Some? ==> ApplyUserUpdate(u, req, true).isActive == req.isActive.value
    ensures req.canCreateUser.Some? ==> ApplyUserUpdate(u, req, true).canCreateUser == req.canCreateUser.value
    ensures req.role.Some? && ParseRole(req.role.value).None? ==> ApplyUserUpdate(u, req, true).role == u.role
    ensures req.role.None? ==> ApplyUserUpdate(u, req, true).role == u.role
    ensures req.canViewAllTodos.Some? ==> ApplyUserUpdate(u, req, true).canViewAllTodos == req.canViewAllTodos.value
    ensures req.canEditAllTodos.Some? ==> ApplyUserUpdate(u, req, true).canEditAllTodos == req.canEditAllTodos.value
    ensures req.canViewAllTodos.None? ==> ApplyUserUpdate(u, req, true).canViewAllTodos == u.canViewAllTodos
    ensures req.canEditAllTodos.None? ==> ApplyUserUpdate(u, req, true).canEditAllTodos == u.canEditAllTodos
    ensures req.canCreateUser.None? ==> ApplyUserUpdate(u, req, true).canCreateUser == u.canCreateUser
    ensures req.isActive.None? ==> ApplyUserUpdate(u, req, true).isActive == u.isActive
  {
  }

  /** Two rows of a valid table with different keys never share a (tenant, e-mail) pair. */
  lemma StoredEmailsDistinct(users: seq<User>, u: User)
    requires UniqueEmailPerTenant(users) && u in users
    ensures forall v :: v in users && v.id != u.id ==> v.tenantId != u.tenantId || v.email != u.email
  {
    forall v | v in users && v.id != u.id
      ensures v.tenantId != u.tenantId || v.email != u.email
    {
      var i :| 0 <= i < |users| && users[i] == v;
      var j :| 0 <= j < |users| && users[j] == u;
      assert i != j;
    }
  }

  /**
   * Replacing one row by an edit that keeps its key, tenant and role, or that
   * demotes it while another owner of its tenant stays, keeps every tenant's owner.
   */
  lemma ReplaceKeepsOwners(users: seq<User>, target: User, updated: User, keeper: Option<User>)
    requires UniqueUserIds(users) && target in users
    requires updated.id == target.id && updated.tenantId == target.tenantId
    requires updated.role != target.role ==>
      keeper.Some? && keeper.value in users && keeper.value.id != target.id && IsOwnerOf(keeper.value, target.tenantId)
    ensures OwnersKept(users, Replace(users, updated))
  {
    ReplaceKeepsKeys(users, updated);
    forall t | TenantHasOwner(users, t)
      ensures TenantHasOwner(Replace(users, updated), t)
    {
      var w :| w in users && IsOwnerOf(w, t);
      if w.id == target.id {
        GetByIdFinds(users, w);
        GetByIdFinds(users, target);
        if updated.role != target.role {
          assert keeper.value in Replace(users, updated);
        } else {
          assert IsOwnerOf(updated, t);
        }
      } else {
        assert w in Replace(users, updated);
      }
    }
  }

  /** `UpdateUserAsync`. */
  method UpdateUser(db: HoneydewDb, userId: Uuid, tenantId: Uuid, id: Uuid, req: UpdateUserRequest)
    returns (r: Result<UserSummary>)
    requires db.Valid()
    modifies db`users
    ensures db.Valid()
    ensures OwnersKept(old(db.users), db.users)
    ensures r.Failure? ==> db.users == old(db.users)
    ensures r.Failure? ==> r.error == "Unauthorized" || r.error == "NotFound"
    ensures (r == Failure("Unauthorized")) <==> CurrentUser(old(db.users), userId, tenantId).None?
    ensures (r == Failure("NotFound")) <==>
      CurrentUser(old(db.users), userId, tenantId).Some? && GetByIdAndTenantId(old(db.users), id, tenantId).None?
    ensures r.Success? ==>
      var caller := CurrentUser(old(db.users), userId, tenantId).value;
      var target := GetByIdAndTenantId(old(db.users), id, tenantId).value;
      var updated := ApplyUserUpdate(target, req, caller.role == Owner && target.id != userId);
      db.users == Replace(old(db.users), updated) && r.value == MapToSummary(updated)
  {
    var caller := CurrentUser(db.users, userId, tenantId);
    if caller.None? {
      return Failure("Unauthorized");
    }
    var target := GetByIdAndTenantId(db.users, id, tenantId);
    if target.None? {
      return Failure("NotFound");
    }
    var isOwner := caller.value.role == Owner;
    var isSelf := target.value.id == userId;
    var updated := ApplyUserUpdate(target.value, req, isOwner && !isSelf);
    StoredEmailsDistinct(db.users, target.value);
    ReplaceKeepsOwners(db.users, target.value, updated, caller);
    SaveUser(db, updated);
    r := Success(MapToSummary(updated));
  }

  /** `UpdateCurrentUserAsync`: a user edits its own name and e-mail; nothing is saved on an error. */
  method UpdateCurrentUser(db: HoneydewDb, userId: Uuid, tenantId: Uuid, req: UpdateCurrentUserRequest)
    returns (r: Result<UserSummary>)
    requires db.Valid()
    modifies db`users
    ensures db.Valid()
    ensures OwnersKept(old(db.users), db.users)
    ensures r.Failure? ==> db.users == old(db.users)
    ensures r.Failure? ==> r.error == "Unauthorized" || r.error == EmailEmpty || r.error == EmailInUse
    ensures (r == Failure("Unauthorized")) <==> GetByIdAndTenantId(old(db.users), userId, tenantId).None?
    ensures (r == Failure(EmailEmpty)) <==>
      GetByIdAndTenantId(old(db.users), userId, tenantId).Some? && req.email.Some? && NormalizeEmail(req.email.value) == []
    ensures (r == Failure(EmailInUse)) <==>
      && GetByIdAndTenantId(old(db.users), userId, tenantId).Some? && req.email.Some? && NormalizeEmail(req.email.value) != []
      && ExistsEmailInTenantExcludingUser(old(db.users), tenantId, NormalizeEmail(req.email.value), userId)
    ensures r.Success? ==>
      var me := GetByIdAndTenantId(old(db.users), userId, tenantId).value;
      var updated := me.(displayName := if req.displayName.Some? then Trim(req.displayName.value) else me.displayName,
                         email := if req.email.Some? then NormalizeEmail(req.email.value) else me.email);
      db.users == Replace(old(db.users), updated) && r.value == MapToSummary(updated)
  {
    var me := GetByIdAndTenantId(db.users, userId, tenantId);
    if me.None? {
      return Failure("Unauthorized");
    }
    var updated := me.value;
    if req.displayName.Some? {
      updated := updated.(displayName := Trim(req.displayName.value));
    }
    if req.email.Some? {
      var email := NormalizeEmail(req.email.value);
      if email == [] {
        return Failure(EmailEmpty);
      }
      if ExistsEmailInTenantExcludingUser(db.users, tenantId, email, userId) {
        return Failure(EmailInUse);
      }
      updated := updated.(email := email);
    } else {
      StoredEmailsDistinct(db.users, me.value);
    }
    ReplaceKeepsOwners(db.users, me.value, updated, None);
    SaveUser(db, updated);
    r := Success(MapToSummary(updated));
  }

  /** `DeleteUserAsync`: an owner may delete anyone in the tenant, anyone may delete itself, but not the last owner. */
  method DeleteUser(db: HoneydewDb, currentUserId: Uuid, tenantId: Uuid, userIdToDelete: Uuid)
    returns (err: Option<string>)
    requires db.Valid()
    modifies db`users
    ensures db.Valid()
    ensures OwnersKept(old(db.users), db.users)
    ensures err.Some? ==> db.users == old(db.users)
    ensures err.Some? ==> err.value in {"Unauthorized", "NotFound", "Forbid", LastOwner}
    ensures (err == Some("Unauthorized")) <==> CurrentUser(old(db.users), currentUserId, tenantId).None?
    ensures (err == Some("NotFound")) <==>
      CurrentUser(old(db.users), currentUserId, tenantId).Some? && GetByIdAndTenantId(old(db.users), userIdToDelete, tenantId).None?
    ensures (err == Some("Forbid")) <==>
      && CurrentUser(old(db.users), currentUserId, tenantId).Some? && GetByIdAndTenantId(old(db.users), userIdToDelete, tenantId).Some?
      && CurrentUser(old(db.users), currentUserId, tenantId).value.role != Owner && userIdToDelete != currentUserId
    ensures (err == Some(LastOwner)) <==>
      && CurrentUser(old(db.users), currentUserId, tenantId).Some? && GetByIdAndTenantId(old(db.users), userIdToDelete, tenantId).Some?
      && (CurrentUser(old(db.users), currentUserId, tenantId).value.role == Owner || userIdToDelete == currentUserId)
      && GetByIdAndTenantId(old(db.users), userIdToDelete, tenantId).value.role == Owner
      && CountOwners(old(db.users), tenantId) <= 1
    ensures err.None? ==> db.users == Where(old(db.users), OtherThan(userIdToDelete))
  {
    var caller := CurrentUser(db.users, currentUserId, tenantId);
    if caller.None? {
      return Some("Unauthorized");
    }
    var target := GetByIdAndTenantId(db.users, userIdToDelete, tenantId);
    if target.None? {
      return Some("NotFound");
    }
    var isOwner := caller.value.role == Owner;
    var isSelf := target.value.id == currentUserId;
    if !isOwner && !isSelf {
      return Some("Forbid");
    }
    if target.value.role == Owner {
      var ownerCount := CountOwners(db.users, tenantId);
      if ownerCount <= 1 {
        return Some(LastOwner);
      }
      SecondOwnerRemains(db.users, tenantId, userIdToDelete);
    }
    DeletionKeepsOwners(db.users, target.value);
    var deleted := UsersData.DeleteUser(db, userIdToDelete, tenantId);
    err := if deleted then None else Some("NotFound");
  }

  /** Deleting one user keeps every other tenant's owner, and its own tenant's when a second owner remains. */
  lemma DeletionKeepsOwners(users: seq<User>, target: User)
    requires UniqueUserIds(users) && target in users
    requires target.role == Owner ==> TenantHasOwner(Where(users, OtherThan(target.id)), target.tenantId)
    ensures OwnersKept(users, Where(users, OtherThan(target.id)))
  {
    forall t | TenantHasOwner(users, t)
      ensures TenantHasOwner(Where(users, OtherThan(target.id)), t)
    {
      var w :| w in users && IsOwnerOf(w, t);
      if w.id == target.id {
        GetByIdFinds(users, w);
        GetByIdFinds(users, target);
      } else {
        assert w in Where(users, OtherThan(target.id));
      }
    }
  }
}
