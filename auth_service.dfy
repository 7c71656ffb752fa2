/**
 * `AuthService`: sign-up of a new household with its owner, e-mail and
 * password sign-in (across tenants, with an optional tenant to pick one),
 * client-credential tokens for API clients, and API-client registration.
 *
 * A token is the claim set `JwtService` signs (module `Entities`, `Token`);
 * the fresh ids, the salt and the clock are parameters.
 */
module AuthService {
  import opened Wrappers
  import opened Entities
  import opened Strings
  import opened Hashing
  import opened Linq
  import opened Database
  import opened UsersData
  import opened AuthData
  import TenantData

  const CredentialsRequired: string := "Email and password are required."
  const EmailRegistered: string := "A user with this email already exists."
  const InvalidLogin: string := "Invalid email or password."
  const MultipleTenants: string := "User belongs to multiple tenants; include tenantId."
  const ClientCredentialsRequired: string := "ClientId and ClientSecret are required."
  const InvalidClient: string := "Invalid client credentials."
  const ClientIdTaken: string := "A client with this ClientId already exists."
  const TenantNotFound: string := "Tenant not found."

  function Failed(error: string): AuthResult {
    AuthResult(false, None, Some(error))
  }

  function Issued(token: Token): AuthResult {
    AuthResult(true, Some(token), None)
  }

  /** `JwtService.CreateUserToken(user, user.Tenant)`: the claims of a signed-in user. */
  function UserTokenOf(u: User): Token {
    UserToken(u.id, u.tenantId, u.email, u.role, u.canViewAllTodos, u.canEditAllTodos, u.canCreateUser)
  }

  /** `JwtService.CreateClientToken(client, client.Tenant)`. */
  function ClientTokenOf(c: ApiClient): Token {
    ClientToken(c.id, c.clientId, c.tenantId)
  }

  /** The household row `RegisterTenant` stores. */
  function NewTenant(id: Uuid, tenantName: string, now: DateTime): Tenant {
    Tenant(id, Trim(tenantName), now, true, None, None)
  }

  /** The owner row `RegisterTenant` stores: active, an Owner, every flag set. */
  function NewOwner(id: Uuid, tenantId: Uuid, email: string, displayName: string, password: string, salt: string, now: DateTime): (r: User)
    requires |salt| > 0
    ensures r.id == id && r.tenantId == tenantId && r.email == NormalizeEmail(email)
    ensures r.displayName == Trim(displayName) && r.isActive && r.lastLoginAt.None?
    ensures IsOwnerOf(r, tenantId) && r.canViewAllTodos && r.canEditAllTodos && r.canCreateUser
    ensures forall p :: VerifyPassword(p, r.passwordHash, r.passwordSalt) <==> p == password
  {
    var (hash, storedSalt) := HashPassword(password, salt);
    User(id, tenantId, NormalizeEmail(email), Trim(displayName), hash, Some(storedSalt),
      Owner, true, true, true, true, now, None)
  }

  /** `RegisterTenant`. */
  method RegisterTenant(db: HoneydewDb, tenantName: string, ownerEmail: string, password: string, ownerDisplayName: string,
                        newTenantId: Uuid, newUserId: Uuid, salt: string, now: DateTime)
    returns (r: AuthResult)
    requires db.Valid()
    requires forall t :: t in db.tenants ==> t.id != newTenantId
    requires !HasUserId(db.users, newUserId) && |salt| > 0
    modifies db`tenants, db`users
    ensures db.Valid()
    ensures OwnersKept(old(db.users), db.users)
    ensures !r.success ==> db.tenants == old(db.tenants) && db.users == old(db.users) && r.token.None?
    ensures r == Failed(CredentialsRequired) <==> NormalizeEmail(ownerEmail) == [] || password == []
    ensures r == Failed(EmailRegistered) <==>
      NormalizeEmail(ownerEmail) != [] && password != [] && AnyUserWithEmail(old(db.users), NormalizeEmail(ownerEmail))
    ensures r.success <==>
      NormalizeEmail(ownerEmail) != [] && password != [] && !AnyUserWithEmail(old(db.users), NormalizeEmail(ownerEmail))
    ensures r.success ==>
      var owner := NewOwner(newUserId, newTenantId, ownerEmail, ownerDisplayName, password, salt, now);
      && db.tenants == old(db.tenants) + [NewTenant(newTenantId, tenantName, now)]
      && db.users == old(db.users) + [owner]
      && r == Issued(UserTokenOf(owner))
      && TenantHasOwner(db.users, newTenantId)
      && LoginCandidate(db.users, owner.email, None) == Success(owner)
  {
    var email := NormalizeEmail(ownerEmail);
    if email == [] || password == [] {
      return Failed(CredentialsRequired);
    }
    if AnyUserWithEmail(db.users, email) {
      return Failed(EmailRegistered);
    }
    var tenant := NewTenant(newTenantId, tenantName, now);
    var owner := NewOwner(newUserId, newTenantId, ownerEmail, ownerDisplayName, password, salt, now);
    AddTenantAndUser(db, tenant, owner);
    assert owner in db.users;
    assert forall u :: u in old(db.users) ==> u in db.users;
    SignUpThenSignIn(old(db.users), owner);
    r := Issued(UserTokenOf(owner));
  }

  /**
   * The account a sign-in attempt picks, before the password is checked
   * (`Login`, from the lookup to the tenant checks).
   */
  function LoginCandidate(users: seq<User>, email: string, tenantId: Option<Uuid>): (r: Result<User>)
    ensures r.Success? ==> r.value in users && ActiveWithEmail(r.value, email)
    ensures r.Success? && tenantId.Some? ==> r.value.tenantId == tenantId.value
    ensures r.Failure? ==> r.error == InvalidLogin || r.error == MultipleTenants
    ensures r == Failure(MultipleTenants) <==> tenantId.None? && |GetUsersByEmailWithTenant(users, email)| > 1
    ensures tenantId.None? ==> (r.Success? <==> |GetUsersByEmailWithTenant(users, email)| == 1)
    ensures tenantId.Some? ==>
      (r.Success? <==> exists u :: u in users && ActiveWithEmail(u, email) && u.tenantId == tenantId.value)
  {
    var found := GetUsersByEmailWithTenant(users, email);
    if |found| == 0 then Failure(InvalidLogin)
    else if |found| > 1 then
      if tenantId.None? then Failure(MultipleTenants)
      else match FirstOrDefault(found, (u: User) => u.tenantId == tenantId.value)
        case None => Failure(InvalidLogin)
        case Some(u) => Success(u)
    else if tenantId.Some? && found[0].tenantId != tenantId.value then Failure(InvalidLogin)
    else Success(found[0])
  }

  /** In a valid table, the account picked for a tenant is that tenant's only active account with the address. */
  lemma LoginCandidateUnique(users: seq<User>, email: string, tenantId: Uuid, u: User)
    requires UniqueEmailPerTenant(users)
    requires u in users && ActiveWithEmail(u, email) && u.tenantId == tenantId
    ensures LoginCandidate(users, email, Some(tenantId)) == Success(u)
  {
    var c := LoginCandidate(users, email, Some(tenantId)).value;
    var i :| 0 <= i < |users| && users[i] == u;
    var j :| 0 <= j < |users| && users[j] == c;
    assert i == j;
  }

  /** After sign-up, the address is the owner's alone, so signing in needs no tenant. */
  lemma SignUpThenSignIn(users: seq<User>, owner: User)
    requires !AnyUserWithEmail(users, owner.email) && owner.isActive
    ensures LoginCandidate(users + [owner], owner.email, None) == Success(owner)
    ensures LoginCandidate(users + [owner], owner.email, Some(owner.tenantId)) == Success(owner)
  {
    var p := (u: User) => ActiveWithEmail(u, owner.email);
    WhereAppend(users, [owner], p);
    assert Count(users, p) == 0;
    assert GetUsersByEmailWithTenant(users + [owner], owner.email) == [owner];
  }

  /** `Login`. */
  method Login(db: HoneydewDb, email: string, password: string, tenantId: Option<Uuid>, now: DateTime)
    returns (r: AuthResult)
    requires db.Valid()
    modifies db`users
    ensures db.Valid()
    ensures OwnersKept(old(db.users), db.users)
    ensures !r.success ==> db.users == old(db.users) && r.token.None?
    ensures !r.success ==> r.error in {Some(CredentialsRequired), Some(InvalidLogin), Some(MultipleTenants)}
    ensures r == Failed(CredentialsRequired) <==> NormalizeEmail(email) == [] || password == []
    ensures r == Failed(MultipleTenants) <==>
      NormalizeEmail(email) != [] && password != [] && LoginCandidate(old(db.users), NormalizeEmail(email), tenantId) == Failure(MultipleTenants)
    ensures r.success <==>
      && NormalizeEmail(email) != [] && password != []
      && LoginCandidate(old(db.users), NormalizeEmail(email), tenantId).Success?
      && var u := LoginCandidate(old(db.users), NormalizeEmail(email), tenantId).value;
         VerifyPassword(password, u.passwordHash, u.passwordSalt)
    ensures r.success ==>
      var u := LoginCandidate(old(db.users), NormalizeEmail(email), tenantId).value;
      && r == Issued(UserTokenOf(u))
      && db.users == Replace(old(db.users), u.(lastLoginAt := Some(now)))
  {
    var address := NormalizeEmail(email);
    if address == [] || password == [] {
      return Failed(CredentialsRequired);
    }
    var candidate := LoginCandidate(db.users, address, tenantId);
    if candidate.Failure? {
      return Failed(candidate.error);
    }
    var user := candidate.value;
    if !VerifyPassword(password, user.passwordHash, user.passwordSalt) {
      return Failed(InvalidLogin);
    }
    GetByIdFinds(db.users, user);
    UpdateUserLastLogin(db, user.id, now);
    r := Issued(UserTokenOf(user));
  }

  /** `GetClientToken`: the client is looked up by its trimmed id and must be active. */
  function GetClientToken(clients: seq<ApiClient>, clientId: string, clientSecret: string): (r: AuthResult)
    ensures r.success <==>
      && Trim(clientId) != [] && clientSecret != []
      && GetApiClientByClientId(clients, Trim(clientId)).Some?
      && var c := GetApiClientByClientId(clients, Trim(clientId)).value;
         VerifyClientSecret(clientSecret, c.clientId, c.clientSecretHash)
    ensures r.success ==> r == Issued(ClientTokenOf(GetApiClientByClientId(clients, Trim(clientId)).value))
    ensures !r.success ==> r.token.None?
    ensures r == Failed(ClientCredentialsRequired) <==> Trim(clientId) == [] || clientSecret == []
    ensures !r.success ==> r == Failed(ClientCredentialsRequired) || r == Failed(InvalidClient)
  {
    var id := Trim(clientId);
    if id == [] || clientSecret == [] then Failed(ClientCredentialsRequired)
    else match GetApiClientByClientId(clients, id)
      case None => Failed(InvalidClient)
      case Some(c) =>
        if !VerifyClientSecret(clientSecret, c.clientId, c.clientSecretHash) then Failed(InvalidClient)
        else Issued(ClientTokenOf(c))
  }

  /**
   * In a valid table, an active client gets a token for exactly the secret it
   * was registered with, and the token names that client.
   */
  lemma ClientTokenIffSecret(clients: seq<ApiClient>, c: ApiClient, clientSecret: string)
    requires UniqueApiClients(clients)
    requires c in clients && c.isActive && c.clientId == Trim(c.clientId) && c.clientId != []
    requires c.clientSecretHash.salt == c.clientId
    ensures GetClientToken(clients, c.clientId, clientSecret).success <==>
      clientSecret != [] && c.clientSecretHash == HashClientSecret(clientSecret, c.clientId)
    ensures GetClientToken(clients, c.clientId, clientSecret).success ==>
      GetClientToken(clients, c.clientId, clientSecret) == Issued(ClientTokenOf(c))
  {
    var found := GetApiClientByClientId(clients, c.clientId).value;
    var i :| 0 <= i < |clients| && clients[i] == c;
    var j :| 0 <= j < |clients| && clients[j] == found;
    assert i == j;
  }

  /** The client row `CreateApiClient` stores. */
  function NewApiClient(id: Uuid, tenantId: Uuid, name: string, clientId: string, clientSecret: string, now: DateTime): (r: ApiClient)
    ensures r.clientId == Trim(clientId) && r.tenantId == tenantId && r.isActive
    ensures VerifyClientSecret(clientSecret, r.clientId, r.clientSecretHash)
    ensures forall other :: VerifyClientSecret(other, r.clientId, r.clientSecretHash) ==> other == clientSecret
  {
    ApiClient(id, tenantId, Trim(clientId), HashClientSecret(clientSecret, Trim(clientId)), Some(Trim(name)), true, now)
  }

  /** The three refusals of `CreateApiClient` are told apart by their first letter. */
  lemma ClientErrorsDiffer()
    ensures ClientCredentialsRequired != ClientIdTaken
    ensures ClientCredentialsRequired != TenantNotFound
    ensures ClientIdTaken != TenantNotFound
  {
    assert ClientCredentialsRequired[0] == 'C' && ClientIdTaken[0] == 'A' && TenantNotFound[0] == 'T';
  }

  /** A client added under an unused id gets a token for its own secret, naming it. */
  lemma NewClientIssued(clients: seq<ApiClient>, client: ApiClient, clientId: string, clientSecret: string)
    requires !AnyApiClientWithClientId(clients, Trim(clientId))
    requires Trim(clientId) != [] && clientSecret != []
    requires client.clientId == Trim(clientId) && client.isActive
    requires VerifyClientSecret(clientSecret, client.clientId, client.clientSecretHash)
    ensures GetClientToken(clients + [client], clientId, clientSecret) == Issued(ClientTokenOf(client))
  {
    var found := GetApiClientByClientId(clients + [client], Trim(clientId));
    assert client in clients + [client];
    assert found.Some? && found.value in clients + [client];
    assert found.value == client;
  }

  /** `CreateApiClient`: the outcome is `(success, clientId, error)`. */
  method CreateApiClient(db: HoneydewDb, tenantId: Uuid, name: string, clientId: string, clientSecret: string,
                         newId: Uuid, now: DateTime)
    returns (success: bool, createdClientId: Option<string>, error: Option<string>)
    requires db.Valid()
    requires forall c :: c in db.apiClients ==> c.id != newId
    modifies db`apiClients
    ensures db.Valid()
    ensures !success ==> db.apiClients == old(db.apiClients) && createdClientId.None? && error.Some?
    ensures error == Some(ClientCredentialsRequired) <==> Trim(clientId) == [] || clientSecret == []
    ensures error == Some(ClientIdTaken) <==>
      Trim(clientId) != [] && clientSecret != [] && AnyApiClientWithClientId(old(db.apiClients), Trim(clientId))
    ensures error == Some(TenantNotFound) <==>
      && Trim(clientId) != [] && clientSecret != [] && !AnyApiClientWithClientId(old(db.apiClients), Trim(clientId))
      && TenantData.GetById(db.tenants, tenantId).None?
    ensures success <==>
      && Trim(clientId) != [] && clientSecret != [] && !AnyApiClientWithClientId(old(db.apiClients), Trim(clientId))
      && TenantData.GetById(db.tenants, tenantId).Some?
    ensures success ==>
      && error.None? && createdClientId == Some(Trim(clientId))
      && db.apiClients == old(db.apiClients) + [NewApiClient(newId, tenantId, name, clientId, clientSecret, now)]
      && GetClientToken(db.apiClients, clientId, clientSecret) == Issued(ClientToken(newId, Trim(clientId), tenantId))
  {
    ClientErrorsDiffer();
    var id := Trim(clientId);
    if id == [] || clientSecret == [] {
      return false, None, Some(ClientCredentialsRequired);
    }
    if AnyApiClientWithClientId(db.apiClients, id) {
      return false, None, Some(ClientIdTaken);
    }
    if TenantData.GetById(db.tenants, tenantId).None? {
      return false, None, Some(TenantNotFound);
    }
    var client := NewApiClient(newId, tenantId, name, clientId, clientSecret, now);
    NewClientIssued(db.apiClients, client, clientId, clientSecret);
    AddApiClient(db, client);
    success, createdClientId, error := true, Some(id), None;
  }
}
